/** How a grouping is laid out: where each row's cell lands, and what the
    cells say about the depths of their titles. */
module Drawing {
  import opened OrgData
  import opened Overrides
  import opened Levels
  import opened Grouping
  import opened Diagram

  /** The rows a location's chart is drawn from: its partition after the
      overrides. */
  function ChartRows(rows: seq<Row>, overrides: map<string, string>): (chart: seq<Row>)
    ensures |chart| == |Partition(rows)|
    ensures Titles(chart) == Titles(Partition(rows))
  {
    OverridesKeepTitles(Partition(rows), overrides);
    Overridden(Partition(rows), overrides)
  }

  /** The depths before position `p` of an ascending list are those below `ks[p]`. */
  lemma {:induction false} PrefixBelow(ks: seq<nat>, p: int)
    requires Ascending(ks) && 0 <= p < |ks|
    ensures forall d :: d in ks[..p] <==> d in ks && d < ks[p]
  {
    forall d | d in ks[..p] ensures d < ks[p] {
      var q :| 0 <= q < p && ks[..p][q] == d;
      assert ks[q] < ks[p];
    }
    forall d | d in ks && d < ks[p] ensures d in ks[..p] {
      var q :| 0 <= q < |ks| && ks[q] == d;
      assert ks[..p][q] == d;
    }
  }

  /** The block of cells of depth `ks[p]` starts after every row of smaller depth. */
  lemma {:induction false} BlockStart(rows: seq<Row>, depths: seq<nat>, levels: map<nat, seq<string>>, ks: seq<nat>, p: int)
    requires |rows| == |depths| && IsGrouping(rows, depths, levels)
    requires Ascending(ks) && forall d :: d in ks <==> d in levels
    requires 0 <= p < |ks|
    ensures Total(levels, ks[..p]) == CountBelow(depths, |rows|, ks[p])
  {
    PrefixBelow(ks, p);
    TotalCountsRows(rows, depths, levels, ks[..p], ks[p]);
  }

  /** Laid out in ascending order of depth, a grouping gives one cell per row. */
  lemma {:induction false} LayoutSize(rows: seq<Row>, depths: seq<nat>, levels: map<nat, seq<string>>, ks: seq<nat>)
    requires |rows| == |depths| && IsGrouping(rows, depths, levels)
    requires Ascending(ks) && forall d :: d in ks <==> d in levels
    ensures |Layout(levels, ks, FirstId)| == |rows|
  {
    var limit := DepthCeiling(depths);
    forall d | d in levels ensures d < limit {
      BucketEntryOwner(rows, depths, |rows|, d, 0);
    }
    TotalCountsRows(rows, depths, levels, ks, limit);
    CountBelowAll(depths, |rows|, limit);
  }

  /** Row `j`'s cell sits at its `NodeIndex`: column its rank, row its depth. */
  lemma {:induction false} LayoutOfRow(rows: seq<Row>, depths: seq<nat>, levels: map<nat, seq<string>>, ks: seq<nat>, j: int)
    requires |rows| == |depths| && IsGrouping(rows, depths, levels)
    requires Ascending(ks) && forall d :: d in ks <==> d in levels
    requires 0 <= j < |rows|
    ensures NodeIndex(rows, depths, j) < |Layout(levels, ks, FirstId)|
    ensures Layout(levels, ks, FirstId)[NodeIndex(rows, depths, j)]
         == PlaceNode(FirstId + NodeIndex(rows, depths, j), rows[j].title, depths[j], Rank(rows, depths, j))
  {
    RowInBucket(rows, depths, j);
    var p :| 0 <= p < |ks| && ks[p] == depths[j];
    BlockStart(rows, depths, levels, ks, p);
    LayoutAt(levels, ks, FirstId, p, Rank(rows, depths, j));
  }

  /** Every cell is the cell of some row. */
  lemma {:induction false} LayoutRowOf(rows: seq<Row>, depths: seq<nat>, levels: map<nat, seq<string>>, ks: seq<nat>, k: int)
    requires |rows| == |depths| && IsGrouping(rows, depths, levels)
    requires Ascending(ks) && forall d :: d in ks <==> d in levels
    requires 0 <= k < |Layout(levels, ks, FirstId)|
    ensures exists j :: 0 <= j < |rows| && NodeIndex(rows, depths, j) == k
  {
    LayoutCells(levels, ks, FirstId, k);
    var p, i :| 0 <= p < |ks| && 0 <= i < |levels[ks[p]]| && k == Total(levels, ks[..p]) + i;
    BlockStart(rows, depths, levels, ks, p);
    BucketEntryOwner(rows, depths, |rows|, ks[p], i);
    var j :| 0 <= j < |rows| && depths[j] == ks[p] && Rank(rows, depths, j) == i;
    assert NodeIndex(rows, depths, j) == k;
  }

  /** A cell carrying a title whose depth walk stops, on the grid row of
      that depth and in the colour of that depth. */
  ghost predicate CellAtDepth(chart: seq<Row>, node: Node)
  {
    Terminates(chart, node.value) &&
    node.y == HeightGap * Depth(chart, node.value) &&
    node.fill == Fill(Depth(chart, node.value))
  }

  /** The cells drawn for `chart`: one per row, numbered from the first free
      id, each at the depth of its title. */
  ghost predicate DrawnFrom(chart: seq<Row>, nodes: seq<Node>)
  {
    && |nodes| == |chart|
    && (forall k :: 0 <= k < |nodes| ==> nodes[k].id == FirstId + k)
    && (forall k {:trigger CellAtDepth(chart, nodes[k])} :: 0 <= k < |nodes| ==> CellAtDepth(chart, nodes[k]))
  }

  /** The laid-out grouping of an acyclic chart is drawn from it. */
  lemma {:induction false} LayoutIsDrawn(chart: seq<Row>, levels: map<nat, seq<string>>, ks: seq<nat>)
    requires Acyclic(chart) && IsGrouping(chart, Depths(chart), levels)
    requires Ascending(ks) && forall d :: d in ks <==> d in levels
    ensures DrawnFrom(chart, Layout(levels, ks, FirstId))
  {
    var depths := Depths(chart);
    var nodes := Layout(levels, ks, FirstId);
    LayoutSize(chart, depths, levels, ks);
    forall k | 0 <= k < |nodes| ensures CellAtDepth(chart, nodes[k]) {
      LayoutRowOf(chart, depths, levels, ks, k);
      var j :| 0 <= j < |chart| && NodeIndex(chart, depths, j) == k;
      LayoutOfRow(chart, depths, levels, ks, j);
    }
  }

  /** Every row of `chart` has its cell in `nodes`: at the position given by
      its depth and its rank among the rows of that depth. */
  ghost predicate PlacesRows(chart: seq<Row>, nodes: seq<Node>)
  {
    Acyclic(chart) && forall j :: 0 <= j < |chart| ==>
      NodeIndex(chart, Depths(chart), j) < |nodes| &&
      nodes[NodeIndex(chart, Depths(chart), j)]
        == PlaceNode(FirstId + NodeIndex(chart, Depths(chart), j), chart[j].title,
                     Depths(chart)[j], Rank(chart, Depths(chart), j))
  }

  /** Every row's cell is where `LayoutOfRow` puts it. */
  lemma {:induction false} LayoutPlacesRows(chart: seq<Row>, levels: map<nat, seq<string>>, ks: seq<nat>)
    requires Acyclic(chart) && IsGrouping(chart, Depths(chart), levels)
    requires Ascending(ks) && forall d :: d in ks <==> d in levels
    ensures PlacesRows(chart, Layout(levels, ks, FirstId))
  {
    var depths := Depths(chart);
    var nodes := Layout(levels, ks, FirstId);
    forall j | 0 <= j < |chart|
      ensures NodeIndex(chart, depths, j) < |nodes| &&
        nodes[NodeIndex(chart, depths, j)]
          == PlaceNode(FirstId + NodeIndex(chart, depths, j), chart[j].title, depths[j], Rank(chart, depths, j))
    {
      LayoutOfRow(chart, depths, levels, ks, j);
    }
  }

  /** Every title of the chart, and nothing else, is bound to an id. */
  lemma {:induction false} LayoutBindsTitles(chart: seq<Row>, levels: map<nat, seq<string>>, ks: seq<nat>)
    requires Acyclic(chart) && IsGrouping(chart, Depths(chart), levels)
    requires Ascending(ks) && forall d :: d in ks <==> d in levels
    ensures IdMapOf(Layout(levels, ks, FirstId)).Keys == Titles(chart)
  {
    var depths := Depths(chart);
    var nodes := Layout(levels, ks, FirstId);
    LayoutIsDrawn(chart, levels, ks);
    IdMapKeys(nodes);
    forall t | t in IdMapOf(nodes) ensures t in Titles(chart) {
      var k :| 0 <= k < |nodes| && nodes[k].value == t;
      assert CellAtDepth(chart, nodes[k]);
    }
    forall t | t in Titles(chart) ensures t in IdMapOf(nodes) {
      TitlesOfRows(chart, t);
      var j :| 0 <= j < |chart| && chart[j].title == t;
      LayoutOfRow(chart, depths, levels, ks, j);
      assert nodes[NodeIndex(chart, depths, j)] in nodes;
    }
  }

  /** What the laid-out grouping of an acyclic chart promises, all together:
      it is drawn from the chart, places each row, descends level by level
      and binds exactly the chart's titles. */
  lemma {:induction false} LayoutOfChart(chart: seq<Row>, levels: map<nat, seq<string>>, ks: seq<nat>)
    requires Acyclic(chart) && IsGrouping(chart, Depths(chart), levels)
    requires Ascending(ks) && forall d :: d in ks <==> d in levels
    ensures DrawnFrom(chart, Layout(levels, ks, FirstId))
    ensures PlacesRows(chart, Layout(levels, ks, FirstId))
    ensures GoesDown(Layout(levels, ks, FirstId))
    ensures IdMapOf(Layout(levels, ks, FirstId)).Keys == Titles(chart)
  {
    LayoutIsDrawn(chart, levels, ks);
    LayoutPlacesRows(chart, levels, ks);
    LayoutDescends(levels, ks, FirstId);
    LayoutBindsTitles(chart, levels, ks);
  }
}
