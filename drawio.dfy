/** One location's diagram, end to end: partition, overrides, depths,
    grouping, node cells and edge cells; and what the finished document
    promises about its ids and edges. */
module Drawio {
  import opened OrgData
  import opened Overrides
  import opened Levels
  import opened Grouping
  import opened Diagram
  import opened Edges
  import opened Drawing

  /** Builds the diagram of one location: keeps the rows flagged for it,
      applies the overrides, groups the titles by depth, emits one cell per
      row in ascending depth and then one edge per drawn row. */
  method BuildDrawio(rows: seq<Row>, location: string, overrides: map<string, string>) returns (doc: Document)
    requires Acyclic(ChartRows(rows, overrides))
    ensures doc.name == "OrgChart_" + location
    ensures DrawnFrom(ChartRows(rows, overrides), doc.nodes)
    ensures PlacesRows(ChartRows(rows, overrides), doc.nodes)
    ensures GoesDown(doc.nodes)
    ensures IdMapOf(doc.nodes).Keys == Titles(ChartRows(rows, overrides))
    ensures doc.edges == EdgesFrom(ChartRows(rows, overrides), IdMapOf(doc.nodes), FirstId + |doc.nodes|)
  {
    var part := Partition(rows);
    var chart := ApplyOverrides(part, overrides);
    assert chart == ChartRows(rows, overrides);
    var levels := GroupByLevel(chart);
    var ks := SortedKeys(levels.Keys);
    var nodes, idMap, counter := EmitNodes(levels, ks);
    var edges, next := EmitEdges(chart, idMap, counter);
    doc := Document("OrgChart_" + location, nodes, edges);
    assert doc.edges == EdgesFrom(chart, IdMapOf(nodes), FirstId + |nodes|);
    LayoutOfChart(chart, levels, ks);
  }

  /** The ids of all cells of a document, the two reserved ones first. */
  function CellIds(doc: Document): seq<nat>
  {
    [CanvasId, LayerId]
      + seq(|doc.nodes|, k requires 0 <= k < |doc.nodes| => doc.nodes[k].id)
      + seq(|doc.edges|, e requires 0 <= e < |doc.edges| => doc.edges[e].id)
  }

  /** With nodes numbered from the first free id and edges after them, the
      cells are numbered 0, 1, 2, ... in document order, so no two cells
      share an id and no node or edge takes a reserved one. */
  lemma {:induction false} CellIdsAreSequential(doc: Document)
    requires forall k :: 0 <= k < |doc.nodes| ==> doc.nodes[k].id == FirstId + k
    requires forall e :: 0 <= e < |doc.edges| ==> doc.edges[e].id == FirstId + |doc.nodes| + e
    ensures forall c :: 0 <= c < |CellIds(doc)| ==> CellIds(doc)[c] == c
    ensures forall c1, c2 :: 0 <= c1 < c2 < |CellIds(doc)| ==> CellIds(doc)[c1] != CellIds(doc)[c2]
  {
    forall c | 0 <= c < |CellIds(doc)| ensures CellIds(doc)[c] == c {
      if c >= FirstId + |doc.nodes| {
        assert CellIds(doc)[c] == doc.edges[c - FirstId - |doc.nodes|].id;
      } else if c >= FirstId {
        assert CellIds(doc)[c] == doc.nodes[c - FirstId].id;
      }
    }
  }

  /** Every edge joins two node cells: the source cell carries a row's
      manager and the target cell that row's own title. */
  lemma {:induction false} EdgeJoinsCells(chart: seq<Row>, nodes: seq<Node>, e: int)
    requires forall k :: 0 <= k < |nodes| ==> nodes[k].id == FirstId + k
    requires 0 <= e < |EdgesFrom(chart, IdMapOf(nodes), FirstId + |nodes|)|
    ensures var edge := EdgesFrom(chart, IdMapOf(nodes), FirstId + |nodes|)[e];
      && FirstId <= edge.source < FirstId + |nodes|
      && FirstId <= edge.target < FirstId + |nodes|
      && exists j :: (0 <= j < |chart| && chart[j].manager.Some? &&
           nodes[edge.source - FirstId].value == chart[j].manager.value &&
           nodes[edge.target - FirstId].value == chart[j].title)
  {
    var idMap := IdMapOf(nodes);
    EdgeOrigin(chart, idMap, FirstId + |nodes|, e);
    var j :| 0 <= j < |chart| && HasEdge(chart[j], idMap) &&
      EdgesFrom(chart, idMap, FirstId + |nodes|)[e]
        == Edge(FirstId + |nodes| + e, idMap[chart[j].manager.value], idMap[chart[j].title]);
    IdMapBinding(nodes, FirstId, chart[j].manager.value);
    IdMapBinding(nodes, FirstId, chart[j].title);
  }

  /** A title managed by a title of the chart sits one grid row below it. */
  lemma {:induction false} ManagedCellBelow(chart: seq<Row>, below: Node, above: Node)
    requires CellAtDepth(chart, below) && CellAtDepth(chart, above)
    requires ManagerOf(chart, below.value) == Some(above.value)
    ensures below.y == above.y + HeightGap
  {
    assert Step(chart, below.value) == Some(above.value);
    DepthStep(chart, below.value);
  }

  /** The first row of a title names the manager its cell sits one grid row
      below. */
  lemma {:induction false} FirstRowManagerAbove(chart: seq<Row>, j: int, below: Node, above: Node)
    requires 0 <= j < |chart| && forall i :: 0 <= i < j ==> chart[i].title != chart[j].title
    requires below.value == chart[j].title && chart[j].manager == Some(above.value)
    requires CellAtDepth(chart, below) && CellAtDepth(chart, above)
    ensures below.y == above.y + HeightGap
  {
    TitleOfRow(chart, j);
    assert FirstIndex(chart, below.value) == j;
    ManagedCellBelow(chart, below, above);
  }

  /** An edge drawn for the first row of a title goes from a cell on one
      grid row down to a cell on the next: the manager is one level up. */
  lemma {:induction false} EdgeDescendsOneLevel(chart: seq<Row>, nodes: seq<Node>, j: int)
    requires DrawnFrom(chart, nodes)
    requires 0 <= j < |chart| && forall i :: 0 <= i < j ==> chart[i].title != chart[j].title
    requires HasEdge(chart[j], IdMapOf(nodes))
    ensures FirstId <= IdMapOf(nodes)[chart[j].title] < FirstId + |nodes|
    ensures FirstId <= IdMapOf(nodes)[chart[j].manager.value] < FirstId + |nodes|
    ensures nodes[IdMapOf(nodes)[chart[j].title] - FirstId].y
         == nodes[IdMapOf(nodes)[chart[j].manager.value] - FirstId].y + HeightGap
  {
    var kt := CellOfTitle(nodes, FirstId, chart[j].title);
    var km := CellOfTitle(nodes, FirstId, chart[j].manager.value);
    assert nodes[kt].y == nodes[km].y + HeightGap by {
      assert CellAtDepth(chart, nodes[kt]) && CellAtDepth(chart, nodes[km]);
      FirstRowManagerAbove(chart, j, nodes[kt], nodes[km]);
    }
  }

  /** A title overridden to "None" is never the target of an edge. */
  lemma {:induction false} NoManagerMeansNoIncomingEdge(part: seq<Row>, overrides: map<string, string>, idMap: map<string, nat>, start: nat, t: string)
    requires t in overrides && overrides[t] == NoManager && t in idMap
    requires forall t1, t2 :: t1 in idMap && t2 in idMap && t1 != t2 ==> idMap[t1] != idMap[t2]
    ensures forall e :: 0 <= e < |EdgesFrom(Overridden(part, overrides), idMap, start)| ==>
      EdgesFrom(Overridden(part, overrides), idMap, start)[e].target != idMap[t]
  {
    var chart := Overridden(part, overrides);
    forall e | 0 <= e < |EdgesFrom(chart, idMap, start)|
      ensures EdgesFrom(chart, idMap, start)[e].target != idMap[t]
    {
      EdgeOrigin(chart, idMap, start, e);
      var j :| 0 <= j < |chart| && HasEdge(chart[j], idMap) &&
        EdgesFrom(chart, idMap, start)[e] == Edge(start + e, idMap[chart[j].manager.value], idMap[chart[j].title]);
      assert chart[j].title != t;
    }
  }
}
