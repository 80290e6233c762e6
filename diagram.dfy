/** The node cells of the diagram: ids, grid geometry and fill colour, and
    the title-to-id map built while they are emitted. */
module Diagram {
  import opened Grouping

  /** A vertex cell: id, value, geometry and fill colour. */
  datatype Node = Node(id: nat, value: string, x: int, y: int, width: int, height: int, fill: string)

  /** An edge cell from the manager's node to the employee's node. */
  datatype Edge = Edge(id: nat, source: nat, target: nat)

  /** One diagram: its name and its cells after the two reserved ones. */
  datatype Document = Document(name: string, nodes: seq<Node>, edges: seq<Edge>)

  /** Ids of the two reserved cells: the canvas root and its default layer. */
  const CanvasId: nat := 0
  const LayerId: nat := 1
  /** The first id the counter hands out. */
  const FirstId: nat := 2

  const HeightGap: nat := 110
  const WidthGap: nat := 200
  const NodeWidth: nat := 160
  const NodeHeight: nat := 60

  /** Fill colours of depths 0 to 10. */
  const LevelColors: map<nat, string> := map[
    0 := "#a3c9e2", 1 := "#b1d8b7", 2 := "#f8cfa1", 3 := "#e6b8b7", 4 := "#d0d9f2",
    5 := "#e2ded0", 6 := "#f2d7e2", 7 := "#d4eac8", 8 := "#fbe8c9", 9 := "#ccd9f9", 10 := "#e9e6df"]
  const DefaultFill: string := "#ffffff"

  /** The fill of a depth: its colour in the table, white beyond it. */
  function Fill(level: nat): string
  {
    if level in LevelColors then LevelColors[level] else DefaultFill
  }

  /** Depths 0 to 10 each get their own colour, none of them white; every
      deeper level is white. */
  lemma FillColours(level: nat)
    ensures level <= 10 ==> Fill(level) == LevelColors[level] && Fill(level) != DefaultFill
    ensures level > 10 ==> Fill(level) == DefaultFill
  {
  }

  /** The cell of the `index`-th title of depth `level`. */
  function PlaceNode(id: nat, title: string, level: nat, index: nat): Node
  {
    Node(id, title, WidthGap * index, HeightGap * level, NodeWidth, NodeHeight, Fill(level))
  }

  /** The cells of one depth, left to right, numbered from `start`. */
  function LevelCells(titles: seq<string>, level: nat, start: nat): seq<Node>
  {
    seq(|titles|, i requires 0 <= i < |titles| => PlaceNode(start + i, titles[i], level, i))
  }

  /** The cells of the depths `ks`, in that order, numbered from `start`. */
  function Layout(levels: map<nat, seq<string>>, ks: seq<nat>, start: nat): (cells: seq<Node>)
    requires forall d :: d in ks ==> d in levels
    ensures |cells| == Total(levels, ks)
    ensures forall k :: 0 <= k < |cells| ==> cells[k].id == start + k
  {
    if ks == [] then []
    else
      var front := ks[..|ks| - 1];
      var level := ks[|ks| - 1];
      Layout(levels, front, start) + LevelCells(levels[level], level, start + Total(levels, front))
  }

  /** Laying out one more depth keeps the cells already laid out. */
  lemma LayoutKeepsFront(levels: map<nat, seq<string>>, ks: seq<nat>, start: nat, k: int)
    requires forall d :: d in ks ==> d in levels
    requires ks != [] && 0 <= k < |Layout(levels, ks[..|ks| - 1], start)|
    ensures k < |Layout(levels, ks, start)|
    ensures Layout(levels, ks, start)[k] == Layout(levels, ks[..|ks| - 1], start)[k]
  {
  }

  /** The cells of the last listed depth come after all the others. */
  lemma LayoutLastLevel(levels: map<nat, seq<string>>, ks: seq<nat>, start: nat, i: int)
    requires forall d :: d in ks ==> d in levels
    requires ks != [] && 0 <= i < |levels[ks[|ks| - 1]]|
    ensures Total(levels, ks[..|ks| - 1]) + i < |Layout(levels, ks, start)|
    ensures Layout(levels, ks, start)[Total(levels, ks[..|ks| - 1]) + i]
         == PlaceNode(start + Total(levels, ks[..|ks| - 1]) + i, levels[ks[|ks| - 1]][i], ks[|ks| - 1], i)
  {
  }

  /** The `i`-th title of the `p`-th listed depth sits at position
      `Total(levels, ks[..p]) + i`, on the grid at column `i` and row `ks[p]`. */
  lemma {:induction false} LayoutAt(levels: map<nat, seq<string>>, ks: seq<nat>, start: nat, p: int, i: int)
    requires forall d :: d in ks ==> d in levels
    requires 0 <= p < |ks| && 0 <= i < |levels[ks[p]]|
    ensures Total(levels, ks[..p]) + i < |Layout(levels, ks, start)|
    ensures Layout(levels, ks, start)[Total(levels, ks[..p]) + i]
         == PlaceNode(start + Total(levels, ks[..p]) + i, levels[ks[p]][i], ks[p], i)
  {
    var n := |ks| - 1;
    if p < n {
      var front := ks[..n];
      assert front[..p] == ks[..p] && front[p] == ks[p];
      LayoutAt(levels, front, start, p, i);
      var k := Total(levels, front[..p]) + i;
      LayoutKeepsFront(levels, ks, start, k);
      assert Layout(levels, ks, start)[k] == PlaceNode(start + k, levels[front[p]][i], front[p], i);
    } else {
      LayoutLastLevel(levels, ks, start, i);
    }
  }

  /** Every cell is the cell of some title of some listed depth, at the
      position `LayoutAt` gives it. */
  lemma {:induction false} LayoutCells(levels: map<nat, seq<string>>, ks: seq<nat>, start: nat, k: int)
    requires forall d :: d in ks ==> d in levels
    requires 0 <= k < |Layout(levels, ks, start)|
    ensures exists p, i :: (0 <= p < |ks| && 0 <= i < |levels[ks[p]]| && k == Total(levels, ks[..p]) + i &&
      Layout(levels, ks, start)[k] == PlaceNode(start + k, levels[ks[p]][i], ks[p], i))
  {
    var n := |ks| - 1;
    var front := ks[..n];
    if k < |Layout(levels, front, start)| {
      LayoutCells(levels, front, start, k);
      var p, i :| 0 <= p < |front| && 0 <= i < |levels[front[p]]| && k == Total(levels, front[..p]) + i &&
        Layout(levels, front, start)[k] == PlaceNode(start + k, levels[front[p]][i], front[p], i);
      assert ks[p] == front[p] && front[..p] == ks[..p];
    } else {
      var i := k - |Layout(levels, front, start)|;
      assert Layout(levels, ks, start)[k] == PlaceNode(start + k, levels[ks[n]][i], ks[n], i);
      assert ks[..n] == front;
    }
  }

  /** No cell is placed above an earlier one: the cells go down the page. */
  predicate GoesDown(nodes: seq<Node>)
  {
    forall k1, k2 :: 0 <= k1 <= k2 < |nodes| ==> nodes[k1].y <= nodes[k2].y
  }

  /** With the depths listed in ascending order, the cells go down the page:
      no cell is placed above an earlier one. */
  lemma {:induction false} LayoutDescends(levels: map<nat, seq<string>>, ks: seq<nat>, start: nat)
    requires forall d :: d in ks ==> d in levels
    requires Ascending(ks)
    ensures forall k :: 0 <= k < |Layout(levels, ks, start)| ==>
      Layout(levels, ks, start)[k].y <= HeightGap * ks[|ks| - 1]
    ensures GoesDown(Layout(levels, ks, start))
  {
    if ks != [] {
      var n := |ks| - 1;
      var front := ks[..n];
      var cells := Layout(levels, ks, start);
      var before := Layout(levels, front, start);
      LayoutDescends(levels, front, start);
      assert forall k :: 0 <= k < |before| ==> cells[k] == before[k];
      assert forall k :: |before| <= k < |cells| ==> cells[k].y == HeightGap * ks[n];
      if front != [] {
        assert front[|front| - 1] < ks[n];
      }
    }
  }

  /** The title-to-id map after the cells have been emitted in order: a
      later cell with the same title replaces the earlier id. */
  function IdMapOf(nodes: seq<Node>): map<string, nat>
  {
    if nodes == [] then map[]
    else IdMapOf(nodes[..|nodes| - 1])[nodes[|nodes| - 1].value := nodes[|nodes| - 1].id]
  }

  /** The map holds exactly the values of the cells. */
  lemma {:induction false} IdMapKeys(nodes: seq<Node>)
    ensures IdMapOf(nodes).Keys == set node | node in nodes :: node.value
  {
    if nodes != [] {
      var n := |nodes| - 1;
      IdMapKeys(nodes[..n]);
      assert nodes == nodes[..n] + [nodes[n]];
    }
  }

  /** With cells numbered from `start`, a title is bound to the id of the
      last cell carrying it. */
  lemma {:induction false} IdMapBinding(nodes: seq<Node>, start: nat, t: string)
    requires forall k :: 0 <= k < |nodes| ==> nodes[k].id == start + k
    requires t in IdMapOf(nodes)
    ensures start <= IdMapOf(nodes)[t] < start + |nodes|
    ensures nodes[IdMapOf(nodes)[t] - start].value == t
    ensures forall k :: IdMapOf(nodes)[t] - start < k < |nodes| ==> nodes[k].value != t
  {
    var n := |nodes| - 1;
    if t != nodes[n].value {
      var front := nodes[..n];
      IdMapBinding(front, start, t);
      assert front[IdMapOf(front)[t] - start] == nodes[IdMapOf(front)[t] - start];
      forall k | IdMapOf(nodes)[t] - start < k < n ensures nodes[k].value != t {
        assert front[k] == nodes[k];
      }
    }
  }

  /** The position of the cell a title is bound to. */
  lemma {:induction false} CellOfTitle(nodes: seq<Node>, start: nat, t: string) returns (k: nat)
    requires forall k :: 0 <= k < |nodes| ==> nodes[k].id == start + k
    requires t in IdMapOf(nodes)
    ensures k < |nodes| && IdMapOf(nodes)[t] == start + k && nodes[k].value == t
  {
    IdMapBinding(nodes, start, t);
    k := IdMapOf(nodes)[t] - start;
  }

  /** No two titles share an id in the map. */
  lemma IdMapInjective(nodes: seq<Node>, start: nat)
    requires forall k :: 0 <= k < |nodes| ==> nodes[k].id == start + k
    ensures forall t1, t2 :: t1 in IdMapOf(nodes) && t2 in IdMapOf(nodes) && t1 != t2 ==>
      IdMapOf(nodes)[t1] != IdMapOf(nodes)[t2]
  {
    forall t1, t2 | t1 in IdMapOf(nodes) && t2 in IdMapOf(nodes) && t1 != t2
      ensures IdMapOf(nodes)[t1] != IdMapOf(nodes)[t2]
    {
      IdMapBinding(nodes, start, t1);
      IdMapBinding(nodes, start, t2);
    }
  }

  /** One more title of a depth appends its cell to that depth's cells. */
  lemma LevelCellsGrow(titles: seq<string>, level: nat, start: nat, i: int)
    requires 0 <= i < |titles|
    ensures LevelCells(titles[..i + 1], level, start)
         == LevelCells(titles[..i], level, start) + [PlaceNode(start + i, titles[i], level, i)]
  {
  }

  /** One more listed depth appends its cells to the layout. */
  lemma LayoutGrows(levels: map<nat, seq<string>>, ks: seq<nat>, start: nat, p: int)
    requires forall d :: d in ks ==> d in levels
    requires 0 <= p < |ks|
    ensures Layout(levels, ks[..p + 1], start)
         == Layout(levels, ks[..p], start) + LevelCells(levels[ks[p]], ks[p], start + |Layout(levels, ks[..p], start)|)
  {
    assert ks[..p + 1][..p] == ks[..p];
  }

  /** One more cell rebinds its title to its id. */
  lemma IdMapGrows(nodes: seq<Node>, cell: Node)
    ensures IdMapOf(nodes + [cell]) == IdMapOf(nodes)[cell.value := cell.id]
  {
    assert (nodes + [cell])[..|nodes|] == nodes;
  }

  /** Emits the cells level by level, in the order of `ks`, recording the id
      of every title. */
  method EmitNodes(levels: map<nat, seq<string>>, ks: seq<nat>) returns (nodes: seq<Node>, idMap: map<string, nat>, counter: nat)
    requires forall d :: d in ks ==> d in levels
    ensures nodes == Layout(levels, ks, FirstId)
    ensures idMap == IdMapOf(nodes)
    ensures counter == FirstId + |nodes|
  {
    nodes, idMap, counter := [], map[], FirstId;
    var p := 0;
    while p < |ks|
      invariant p <= |ks|
      invariant nodes == Layout(levels, ks[..p], FirstId)
      invariant idMap == IdMapOf(nodes)
      invariant counter == FirstId + |nodes|
    {
      var level := ks[p];
      var titles := levels[level];
      ghost var placed := nodes;
      var i := 0;
      while i < |titles|
        invariant i <= |titles|
        invariant nodes == placed + LevelCells(titles[..i], level, FirstId + |placed|)
        invariant idMap == IdMapOf(nodes)
        invariant counter == FirstId + |nodes|
      {
        var x := WidthGap * i;
        var y := HeightGap * level;
        var cell := Node(counter, titles[i], x, y, NodeWidth, NodeHeight, Fill(level));
        idMap := idMap[titles[i] := counter];
        LevelCellsGrow(titles, level, FirstId + |placed|, i);
        IdMapGrows(nodes, cell);
        nodes := nodes + [cell];
        counter := counter + 1;
        i := i + 1;
      }
      assert titles[..i] == titles;
      LayoutGrows(levels, ks, FirstId, p);
      p := p + 1;
    }
    assert ks[..p] == ks;
  }
}
