# Thermal grid simulation — a Dafny model

This project models the simulation engine `ThermalSystem` of a small heat
sandbox. A rectangular grid of cells carries:

- a temperature field;
- a thermal-mass field: a wall ring of mass 101 five cells in from the edges, mass 1 elsewhere;
- a marker grid (1 for a source, -1 for a sink);
- a list of source cells and a list of exhaust (sink) cells.

Each tick runs four steps in order:

1. add the rate (10.0) to every source cell;
2. halve every exhaust cell;
3. compute a separate change buffer;
4. add the buffer to the field.

In step 3, every cell with k strictly colder neighbours sends (T − Tn)/(k+1) to each of them. The neighbour gains that amount over its own mass. The sender loses it over the sender's mass. All reads use the field as it stood after steps 1 and 2.

Modules follow the structure of the program:

- `Grid`: coordinates, rectangular grids, cell updates, the row-major cell list.
- `Lists`: the coordinate lists and their toggle. A toggle pops the first occurrence if there is one and appends otherwise.
- `Topology`: the neighbour lists (right, left, down, up, in-bounds only), the neighbour table and the loop that builds it.
- `Heat`: the tick on plain fields: injection, extraction, downhill flows, posting into the change buffer, the sweep and the commit. It also holds the mass-weighted heat content and its conservation.
- `Thermal`: the system record, the constructor, the source and exhaust toggles with their markers, `Iterate` and the accessors.
- `Reference`: concrete instances:
  - the 40×40 layout;
  - the 11×11 grid, where the sink marker overwrites the source marker;
  - a 1×1 cell that is both source and sink;
  - a worked 3×3 tick.

`Thermal.Valid` is the invariant between operations:

- every grid has the system's shape;
- every mass is positive;
- both lists hold distinct in-bounds coordinates.

`Thermal.Create` establishes it, and the toggles and `Thermal.Iterate` require it and keep it.

Temperatures and masses are mathematical reals. The grid size is a parameter of `Create`; the program fixes it at 40×40, and `Reference.ReferenceLayout` states that instance.

Two behaviours of the program are easy to miss:

- A double toggle is not a no-op. Toggling a present entry twice moves it to the end of its list (`Lists.ToggleTwiceReorders`). A double toggle also clears a marker of the other kind (`Thermal.ToggleSourceTwice`).
- Out-of-range coordinates are not rejected: numpy wraps negative indices. The model instead makes in-bounds coordinates a precondition.

## Model

| member | source | states |
|---|---|---|
| Grid.Fill | thermal_model.py:7 | a `rows`×`cols` grid whose every cell holds the given value |
| Grid.Update | thermal_model.py:8-9 | the grid keeps its shape, the written cell holds the new value and every other cell is unchanged |
| Grid.AddAt | thermal_model.py:59 | the grid keeps its shape, one cell is raised by `d` and no other cell changes |
| Grid.Add | thermal_model.py:77 | the elementwise sum of two grids of the same shape |
| Grid.Cells | thermal_model.py:21-22 | the enumeration visits exactly the in-bounds cells, each once, in row-major order |
| Topology.Neighbours | thermal_model.py:36-43 | q is listed exactly when it is in bounds and differs by 1 in exactly one coordinate; the cell itself is never listed, there are no duplicates, and the length counts the in-bounds directions |
| Topology.NeighbourOrder | thermal_model.py:36-43 | the list is the candidates right, left, down, up filtered by the bounds, in that order |
| Topology.NeighbourCount | thermal_model.py:30-43 | interior cells have 4 neighbours, edge cells 3, corner cells 2 |
| Topology.NeighbourSymmetric | thermal_model.py:30-43 | q neighbours p exactly when p neighbours q |
| Topology.NeighbourTable | thermal_model.py:30-43 | a rows×cols table whose entry (r, c) is the neighbour list of (r, c) |
| Topology.GenNeighbours | thermal_model.py:30-43 | the nested loops with their four bounds checks build exactly the neighbour table |
| Lists.IndexOf | thermal_model.py:47 | the position of the first occurrence: it holds the element and no earlier position does |
| Lists.RemoveAt | thermal_model.py:47 | `pop(i)`: one element shorter, the elements before i kept in place, those after shifted down by one, the multiset less that element |
| Lists.Toggle | thermal_model.py:45-55 | an absent element is appended; a present one is removed at its first occurrence with the rest kept in order; the multiset gains or loses that element; no other element changes membership |
| Lists.ToggleKeepsNoDup | thermal_model.py:45-55 | a duplicate-free list stays duplicate-free and the toggled element's membership flips |
| Lists.ToggleTwiceAbsent | thermal_model.py:45-55 | toggling an absent element twice gives back the exact list |
| Lists.ToggleTwicePresent | thermal_model.py:45-55 | toggling a present element twice restores membership and the multiset but moves the element to the end |
| Lists.ToggleTwiceReorders | thermal_model.py:45-49 | [1, 2] toggled twice at 1 becomes [2, 1], so the list itself is not restored |
| Heat.Inject | thermal_model.py:58-59 | each cell gains `rate` once per occurrence in the source list; cells not listed are unchanged |
| Heat.Extract | thermal_model.py:61-62 | each cell is halved once per occurrence in the exhaust list; cells not listed are unchanged |
| Heat.InjectThenExtract | thermal_model.py:58-62 | with duplicate-free lists, the value the flow step reads is (v + rate if source) / (2 if exhaust): injection fully precedes extraction |
| Heat.DownhillFacts | thermal_model.py:67-70 | the collected flows go exactly to the strictly colder neighbours, at most one per neighbour, each with drop T − Tn > 0 |
| Heat.CellFlows | thermal_model.py:65-70 | the flows of a cell satisfy the downhill characterisation over its neighbour list and target only in-bounds cells |
| Heat.PostAt | thermal_model.py:73-75 | one flow adds its share over the target's mass to the target, subtracts it over the sender's mass from the sender, and touches no other cell |
| Heat.SpreadAt | thermal_model.py:72-75 | after all of a cell's flows, every cell holds its old buffer value plus what it received over its mass, and the sender loses everything sent over its own mass |
| Heat.ShareBounds | thermal_model.py:73 | a share drop/(k+1) with k ≥ 1 is positive and at most half the drop, and exactly half when k = 1 |
| Heat.TransferAmount | thermal_model.py:68-74 | a strictly colder neighbour n gains (T − Tn)/(k+1) over mass[n], where k counts the strictly colder neighbours |
| Heat.TransferBounds | thermal_model.py:69-73 | each transferred amount is positive and at most half the difference, and exactly half when only one neighbour is colder |
| Heat.SenderLoses | thermal_model.py:71-75 | the sending cell loses the sum of its shares over its own mass, and nothing when no neighbour is colder |
| Heat.CellStepElsewhere | thermal_model.py:65-75 | a cell's flow step changes no cell other than itself and its strictly colder neighbours |
| Heat.NoDownhillNoFlow | thermal_model.py:69-71 | a cell with no strictly colder neighbour has no flows and leaves the buffer unchanged |
| Heat.DownhillNone | thermal_model.py:68-70 | no neighbour strictly colder means no flow is collected |
| Heat.CellStepAt | thermal_model.py:65-75 | one cell's step adds to x what x received and subtracts from the sender what it sent, whatever the buffer held |
| Heat.ColderNeighbourFlows | thermal_model.py:68-70 | a strictly colder neighbour is among the flow targets, so k ≥ 1 |
| Heat.SweepAt | thermal_model.py:64-76 | snapshot semantics: the swept buffer at x is the start value plus the sum of every visited cell's independent contribution, all computed from the same field |
| Heat.SweepUniform | thermal_model.py:64-76 | on a uniform field the sweep leaves the buffer unchanged |
| Heat.FlowStateUniform | thermal_model.py:64-76 | on a uniform field the change buffer is all zeros |
| Heat.WeightedAddAt | thermal_model.py:74-75 | adding d at one cell changes Σ mass·value by that cell's mass times d |
| Heat.PostConserves | thermal_model.py:73-75 | posting one flow leaves Σ mass·buffer unchanged |
| Heat.SpreadConserves | thermal_model.py:72-75 | posting all of a cell's flows leaves Σ mass·buffer unchanged |
| Heat.SweepConserves | thermal_model.py:64-76 | the whole sweep leaves Σ mass·buffer unchanged |
| Heat.FlowStateConserves | thermal_model.py:64-76 | the change buffer satisfies Σ mass·flowstate = 0 |
| Heat.Tick | thermal_model.py:57-77 | a tick keeps the grid shape |
| Heat.TickConserves | thermal_model.py:57-77 | committing the buffer keeps the mass-weighted heat the field had after injection and extraction |
| Heat.TickConservesClosed | thermal_model.py:57-77 | without sources or exhausts a tick conserves mass-weighted heat |
| Heat.TickUniform | thermal_model.py:57-77 | without sources or exhausts a uniform field is a fixed point of the tick |
| Thermal.MassLayout | thermal_model.py:11-13 | a positive mass grid: 101 on the ring inside margin 5 but outside margin 6, and 1 elsewhere |
| Thermal.InitialMarkers | thermal_model.py:7-9 | the sink marker at (rows−3, cols−3) wins over the source marker at (8, 8); every other cell is 0 |
| Thermal.Marked | thermal_model.py:21-27 | the scan collects exactly the scanned cells carrying the mark, without duplicates |
| Thermal.Create | thermal_model.py:6-28 | a valid system with the initial marker grid (sink at (rows−3, cols−3) over source at (8, 8)), base temperature everywhere, the mass ring, rate 10, sources [(8, 8)] and exhausts [(rows−3, cols−3)]; when the two coincide, no source and one exhaust |
| Thermal.ToggleSourceEntry | thermal_model.py:45-49 | only the source list changes; only (r, c) changes membership; duplicate-freedom is kept and its membership flips |
| Thermal.ToggleExhaustEntry | thermal_model.py:51-55 | the same for the exhaust list |
| Thermal.ToggleMarker | thermal_model.py:89-92 | the cell holds the mark exactly when it did not before, otherwise 0; no other cell changes |
| Thermal.ToggleSource | thermal_model.py:88-93 | validity is kept; only the marker grid and the source list change; the marker rule holds; (r, c) flips membership and no other coordinate does |
| Thermal.ToggleExhaust | thermal_model.py:95-100 | the same with marker -1 and the exhaust list |
| Thermal.ToggleSourceTwice | thermal_model.py:88-93 | two source toggles restore membership and the multiset, restore the list exactly when (r, c) was absent, leave exhausts and temperatures alone, and leave the marker at 1 if it was 1 and at 0 otherwise |
| Thermal.ToggleExhaustTwice | thermal_model.py:95-100 | the same for exhausts with marker -1 |
| Thermal.SourceAndSinkIndependent | thermal_model.py:88-100 | the roles are independent: a cell can end up in both lists |
| Thermal.Iterate | thermal_model.py:57-77 | validity is kept and only the temperature field changes |
| Thermal.IterateUniform | thermal_model.py:57-77 | without sources or exhausts a uniform system is unchanged by a tick |
| Thermal.IterateConserves | thermal_model.py:64-77 | without sources or exhausts a tick preserves Σ mass·temperature |
| Thermal.IterateSourceThenSink | thermal_model.py:58-62 | a cell that is both source and exhaust is read by the flow step at (v + rate)/2 |
| Thermal.GetState | thermal_model.py:79-80 | the temperature field has the system's shape |
| Thermal.GetThermalMass | thermal_model.py:82-83 | the mass field has the system's shape and is positive everywhere |
| Thermal.Shape | thermal_model.py:85-86 | the field's shape is the construction dimensions |
| Reference.ReferenceLayout | thermal_model.py:7-28 | on 40×40: marker 1 at (8, 8), -1 at (37, 37) and 0 elsewhere; sources [(8, 8)], exhausts [(37, 37)], rate 10, every cell 5.0, mass 101 exactly on rows/columns 5..34 outside 6..33 |
| Reference.ReferenceToggleInitialSource | thermal_model.py:88-93 | right after construction, toggling (8, 8) clears its marker and empties the source list, and toggling again restores both |
| Reference.ElevenByElevenLayout | thermal_model.py:7-27 | on 11×11 the sink marker overwrites the source marker: no source and exhausts [(8, 8)] |
| Reference.SingleCellSourceAndSink | thermal_model.py:57-77 | a lone cell that is both source and sink ends the tick at (v + rate)/2 |
| Reference.SumSingleSender | thermal_model.py:64-76 | when only one listed cell can contribute to x, the sum of contributions is that cell's contribution |
| Reference.CornerSourceTick | thermal_model.py:57-77 | 3×3, unit mass, all 10, source (0, 0) with rate 4: after one tick (0, 0), (0, 1) and (1, 0) hold 34/3 and the other cells 10 |

## Left out

- The pygame interface (sprites, buttons, event loop, mouse mapping, material-view flag): rendering and input are I/O outside the engine.
- `scaled_color`: it calls matplotlib's colour map, a foreign call.
- IEEE-754 rounding: temperatures and masses are reals, so nothing here speaks about bit-exact floating-point results.
- Negative and out-of-range coordinates: the program lets numpy wrap negative indices (and fails on too-large ones). The toggles instead require in-bounds coordinates, and the lists hold only in-bounds entries.
- The `print` calls of the main loop.
- The stored neighbour table: the system record does not keep it. The flow step calls `Topology.Neighbours` directly, and `Topology.GenNeighbours` is proved to build exactly `Topology.NeighbourTable` of those lists.
- The fixed 40×40 size: `Thermal.Create` takes the dimensions and requires more than 8 rows and columns, because the constructor writes the marker at (8, 8).
- The marker grid is not kept consistent with the lists, as in the program. A source toggle on a sink-marked cell sets the marker to 1 and leaves the exhaust list alone.
- `flows` and `change` are instance attributes in the program: scratch values that the model keeps local to the flow step.
- Thermal.GetState: states only the shape of the returned field. Its contents are whatever `Thermal.Create` and `Thermal.Iterate` left there, and those members state them.
- Thermal.GetThermalMass: states only shape and positivity. The layout itself is stated by `Thermal.MassLayout` and `Thermal.Create`.
- Thermal.IterateConserves: states conservation only without sources and exhausts. With them, `Heat.TickConserves` states that the flow step conserves the heat present after injection and extraction.
- Heat.Tick: its contract states only that the shape is kept. What a tick does is stated by `Heat.InjectThenExtract`, `Heat.SweepAt`, `Heat.TransferAmount`, `Heat.SenderLoses` and the conservation lemmas.
