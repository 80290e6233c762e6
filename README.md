# Org chart generator: a Dafny model of the draw.io builder

The org chart generator reads a sheet with a `Title` column, a
`Manager Title` column and one column per location. For every location it
draws a draw.io diagram.

- **Partition.** The location's rows are those whose number in that location's
  column is positive. The caller lists the orphaned titles: rows whose manager is
  given but is not a title of the partition. For each one, the caller chooses a
  new manager or "None".
- **Overrides.** Those choices are applied to the partition.
- **Depth.** Each title's depth is the number of hops of the walk up its manager
  chain. The walk stops at a row with no manager, or at a manager outside the
  partition.
- **Node cells.** The titles are grouped by depth. One node cell is emitted per
  row, level by level in ascending depth. A cell sits at column `200 * i` and
  row `110 * depth`, is 160 by 60, and is filled with the colour of its depth.
- **Edge cells.** One edge cell is emitted per row whose manager and own title
  both received an id. It joins the manager's cell to the employee's cell.
- **Ids.** Ids are handed out by one counter. It starts at 2, after the canvas
  cell 0 and the layer cell 1.

The model follows that builder function step by step:

| file | module | what it holds |
|---|---|---|
| `org_data.dfy` | `OrgData` | rows, the per-location partition, the manager lookup (the first row with the title wins) and the orphan list |
| `overrides.dfy` | `Overrides` | the override map and its in-place application |
| `levels.dfy` | `Levels` | the depth walk as an inductive relation, and the walk as a loop |
| `grouping.dfy` | `Grouping` | grouping by depth, the ascending list of depths, and the position arithmetic of each row's cell |
| `diagram.dfy` | `Diagram` | node cells, their geometry, the level colours, the title-to-id map, and the node-emitting loops |
| `edges.dfy` | `Edges` | edge cells and the edge-emitting loop |
| `drawing.dfy` | `Drawing` | where each row's cell lands, and what the cells say about depths |
| `drawio.dfy` | `Drawio` | the whole builder, and the properties of the finished document |

The loops of the builder are methods proved against specification functions:

- `GetLevel` walks the manager chain.
- `GroupByLevel` appends each title to its depth's list.
- `SortedKeys` orders the depths.
- `EmitNodes` and `EmitEdges` run the counter.
- `ApplyOverrides` rewrites the rows.

The composed method `BuildDrawio` promises, for every acyclic chart:

- every row has exactly one cell, placed at its depth and rank;
- the cells go down the page;
- the id map binds exactly the chart's titles;
- the edges are exactly those of the rows with both ends drawn.

Lemmas beside it show the rest:

- the cell ids are 0, 1, 2, ... in document order;
- every edge joins a manager's cell to an employee's cell;
- an edge of a title's first row goes down exactly one grid row;
- a title overridden to "None" has no incoming edge.

## Model

| member | source | states |
|---|---|---|
| OrgData.Partition | app.py:118 | the partition holds exactly the rows whose location number is positive, and is no longer than the sheet |
| OrgData.PartitionKeepsOrder | app.py:118 | filtering keeps sheet order: the partition of a concatenation is the concatenation of the partitions |
| OrgData.TitlesOfRows | app.py:136 | a title is in the Title column exactly when some row carries it |
| OrgData.OrphansAmong | app.py:204-207 | the list is empty iff every row's manager is absent or among the titles; a title is listed iff some row with that title has a given manager outside the titles |
| OrgData.OrphanedTitles | app.py:204-207 | a title is orphaned iff a partition row carrying it names a manager that is not a partition title; no orphans iff no row is orphaned |
| OrgData.FirstIndex | app.py:133-134 | the lookup lands on a row with the title, and no earlier row has it |
| OrgData.ManagerOf | app.py:133-134 | the manager found is the manager of the first row carrying the title: that row has the title and no earlier row does |
| Overrides.ApplyOverrides | app.py:140-142 | every row with an overridden title gets the chosen manager ("None" clears it); titles, flags, order and all other rows are unchanged |
| Overrides.OverridesKeepTitles | app.py:140-142 | the overrides neither add, drop nor rename a title |
| Overrides.OverridesIdempotent | app.py:140-142 | applying the same overrides twice is the same as applying them once |
| Overrides.OverridesResolveOrphans | app.py:140-142 | when every orphan is overridden, to "None" or to a partition title, no orphan remains |
| Levels.Reach | app.py:131-139 | a title reached by the walk is always a title of the partition |
| Levels.DepthUnique | app.py:131-139 | the walk from a title stops after one number of hops only |
| Levels.Depth | app.py:131-139 | the depth is a number of hops after which the walk stops: after that many hops it is still on a partition title, and that title has no manager among the partition's titles |
| Levels.ReachRemaining | app.py:131-139 | after k hops of a walk of depth d, d - k hops remain; after more than d hops the walk has stopped |
| Levels.DepthCountsHops | app.py:131-139 | the walk reaches a title after k hops iff k is at most the depth, and after depth-many hops it reaches a title with no manager in the partition |
| Levels.DepthStep | app.py:131-139 | depth is 0 iff the manager is absent or outside the partition; otherwise it is the manager's depth plus one |
| Levels.CycleNeverTerminates | app.py:131-139 | a walk that returns to its start never stops, so a manager cycle hangs the builder |
| Levels.GetLevel | app.py:131-139 | the loop returns the depth of the title |
| Grouping.GroupsOneMore | app.py:144-146 | appending the next row's title to its depth's list keeps the grouping invariant |
| Grouping.GroupByLevel | app.py:144-146 | a depth is a key iff some row has it, and its list holds that depth's titles in row order |
| Grouping.BucketPrefix | app.py:144-146 | a depth's list after fewer rows is a prefix of its list after more rows |
| Grouping.RowInBucket | app.py:144-146 | each row's title sits in its depth's list at the row's rank |
| Grouping.RankKeepsOrder | app.py:144-146 | among rows of one depth, a later row has a larger rank |
| Grouping.BucketEntryOwner | app.py:144-146 | every entry of a depth's list belongs to a row of that depth with that rank |
| Grouping.NodeIndexInjective | app.py:148-151 | two different rows get two different cell positions |
| Grouping.TotalCountsRows | app.py:148-151 | the cells of the depths below a limit number exactly the rows of those depths |
| Grouping.SortedKeys | app.py:149 | the depths are listed once each, in strictly ascending order |
| Diagram.FillColours | app.py:156 | depths 0 to 10 get their colour from the level colour table (app.py lines 111-114), none of them white; every deeper level is white |
| Diagram.Layout | app.py:148-169 | the cells number one per listed title, with ids counting up from the start |
| Diagram.LayoutAt | app.py:148-169 | the i-th title of a listed depth has its cell after all shallower cells: column 200 * i, row 110 * depth, 160 by 60, and that depth's colour |
| Diagram.LayoutCells | app.py:148-169 | every cell is the cell of some title of some listed depth |
| Diagram.LayoutDescends | app.py:148-169 | with ascending depths, no cell lies above an earlier one, and none lies below the last depth's row |
| Diagram.IdMapKeys | app.py:154-155 | the id map binds exactly the titles of the emitted cells |
| Diagram.IdMapBinding | app.py:154-155 | a title is bound to the id of its last cell |
| Diagram.IdMapInjective | app.py:154-155 | no two titles share an id |
| Diagram.EmitNodes | app.py:148-169 | the nested loops emit exactly the layout; the id map and the counter follow the emitted cells |
| Edges.EdgesFrom | app.py:171-185 | there are no more edges than rows; the ids count up from the start; both ends are ids of cells |
| Edges.EdgesPrefix | app.py:171-185 | the edges of fewer rows are a prefix of the edges of more rows |
| Edges.EdgeOfRow | app.py:171-185 | a row whose manager and title both have ids gets an edge from the manager's id to its own id, right after the edges of earlier rows |
| Edges.EdgeOrigin | app.py:171-185 | every edge comes from such a row and joins exactly those ids |
| Edges.EmitEdges | app.py:171-185 | the loop emits exactly those edges, and the counter ends one past the last edge id |
| Drawing.ChartRows | app.py:118-142 | the chart has one row per partition row and the same titles |
| Drawing.BlockStart | app.py:148-151 | the cells of a depth start after the cells of every shallower row |
| Drawing.LayoutSize | app.py:148-169 | the layout of a chart's grouping has one cell per row |
| Drawing.LayoutOfRow | app.py:148-169 | each row's cell is at its depth and rank, with its title |
| Drawing.LayoutRowOf | app.py:148-169 | every cell is the cell of some row |
| Drawing.LayoutIsDrawn | app.py:148-169 | every cell of an acyclic chart's layout has the row and colour of its title's depth |
| Drawing.LayoutPlacesRows | app.py:148-169 | every row of the chart is placed by the layout |
| Drawing.LayoutBindsTitles | app.py:148-169 | after the layout, the id map binds exactly the chart's titles |
| Drawing.LayoutOfChart | app.py:148-169 | all four layout facts together |
| Drawio.BuildDrawio | app.py:117-187 | the diagram is named after the location; every row's cell is at its depth and rank, with its depth's row and colour; the cells go down the page; the id map binds exactly the chart's titles; the edges are exactly those of the rows with both ends drawn, numbered after the nodes |
| Drawio.CellIdsAreSequential | app.py:123-183 | the canvas, the layer, the nodes and the edges carry ids 0, 1, 2, ... in document order, so no id is shared |
| Drawio.EdgeJoinsCells | app.py:171-185 | every edge runs from a node cell carrying a row's manager to a node cell carrying that row's title |
| Drawio.ManagedCellBelow | app.py:131-151 | a title managed by a partition title is drawn one grid row below that manager |
| Drawio.FirstRowManagerAbove | app.py:131-151 | the first row of a title names the manager whose cell is one grid row above the title's cell |
| Drawio.EdgeDescendsOneLevel | app.py:131-185 | the edge of a title's first row joins cells exactly one grid row apart |
| Drawio.NoManagerMeansNoIncomingEdge | app.py:140-185 | a title overridden to "None" is the target of no edge |

## Left out

- The Streamlit page, the upload widget, reading the Excel file, the check for the two required columns, the selection boxes and the download button (app.py:8-108, 189-203, 208-234) are user interface and I/O. They are not modelled. The caller's override choices enter as a parameter.
- The XML text is not modelled: element names, attribute strings, style strings and the pretty printer. The document is modelled as its name, its node cells and its edge cells. Ids are modelled as naturals rather than the decimal strings the builder writes.
- An empty `Manager Title` cell (a missing value in the sheet) is modelled as `None`. A missing location number is modelled as a flag that is not positive.
- An empty `Title` cell is not modelled: every row's title is a string. In the builder, the depth lookup for such a row finds no row with that title, and taking its first manager raises an error (app.py:134). The model assumes every title is present.
- Levels.GetLevel: the builder loops forever when the managers form a cycle. The model requires the walk to stop instead (`Terminates`, or `Acyclic` for the whole chart). `CycleNeverTerminates` shows that a cycle breaks this requirement.
- Overrides.ApplyOverrides: the key order of the override dictionary is not modelled. Keys are taken in any order, which gives the same rows because keys are distinct.
- Drawio.EdgeDescendsOneLevel: holds only for the first row of each title. When a title is repeated, its depth comes from the first row's manager, but every later row still draws its own edge, whose manager may sit on any grid row.
- Diagram.IdMapBinding: with a repeated title, the map keeps the id of the last cell of that title. Earlier cells of the same title are then not the target of any edge. This is stated, not corrected.
