/** The edge cells: one per row whose manager and own title both have ids,
    numbered on from the node cells. */
module Edges {
  import opened OrgData
  import opened Diagram

  /** The row is drawn as an edge: its manager is given and both its manager
      and its own title were given an id. */
  predicate HasEdge(r: Row, idMap: map<string, nat>)
  {
    r.manager.Some? && r.manager.value in idMap && r.title in idMap
  }

  /** The edges of `rows`, in row order, numbered from `start`. */
  function EdgesFrom(rows: seq<Row>, idMap: map<string, nat>, start: nat): (edges: seq<Edge>)
    ensures |edges| <= |rows|
    ensures forall e :: 0 <= e < |edges| ==> edges[e].id == start + e
    ensures forall e :: 0 <= e < |edges| ==> edges[e].source in idMap.Values && edges[e].target in idMap.Values
  {
    if rows == [] then []
    else
      var front := EdgesFrom(rows[..|rows| - 1], idMap, start);
      var r := rows[|rows| - 1];
      if HasEdge(r, idMap) then front + [Edge(start + |front|, idMap[r.manager.value], idMap[r.title])]
      else front
  }

  /** The edges of a shorter prefix of the rows come first. */
  lemma {:induction false} EdgesPrefix(rows: seq<Row>, idMap: map<string, nat>, start: nat, n: nat)
    requires n <= |rows|
    ensures |EdgesFrom(rows[..n], idMap, start)| <= |EdgesFrom(rows, idMap, start)|
    ensures EdgesFrom(rows, idMap, start)[..|EdgesFrom(rows[..n], idMap, start)|] == EdgesFrom(rows[..n], idMap, start)
    decreases |rows|
  {
    if n < |rows| {
      var m := |rows| - 1;
      assert rows[..m][..n] == rows[..n];
      EdgesPrefix(rows[..m], idMap, start, n);
    } else {
      assert rows[..n] == rows;
    }
  }

  /** Each row that is drawn gets its own edge, right after the edges of the
      rows before it, from its manager's id to its own id. */
  lemma EdgeOfRow(rows: seq<Row>, idMap: map<string, nat>, start: nat, j: int)
    requires 0 <= j < |rows| && HasEdge(rows[j], idMap)
    ensures |EdgesFrom(rows[..j], idMap, start)| < |EdgesFrom(rows, idMap, start)|
    ensures EdgesFrom(rows, idMap, start)[|EdgesFrom(rows[..j], idMap, start)|]
         == Edge(start + |EdgesFrom(rows[..j], idMap, start)|, idMap[rows[j].manager.value], idMap[rows[j].title])
  {
    EdgesPrefix(rows, idMap, start, j + 1);
    assert rows[..j + 1][..j] == rows[..j];
  }

  /** Every edge comes from a drawn row and joins its manager's id to its own. */
  lemma {:induction false} EdgeOrigin(rows: seq<Row>, idMap: map<string, nat>, start: nat, e: int)
    requires 0 <= e < |EdgesFrom(rows, idMap, start)|
    ensures exists j :: (0 <= j < |rows| && HasEdge(rows[j], idMap) &&
      EdgesFrom(rows, idMap, start)[e] == Edge(start + e, idMap[rows[j].manager.value], idMap[rows[j].title]))
  {
    var m := |rows| - 1;
    var front := EdgesFrom(rows[..m], idMap, start);
    if e < |front| {
      EdgeOrigin(rows[..m], idMap, start, e);
      var j :| 0 <= j < m && HasEdge(rows[..m][j], idMap) &&
        front[e] == Edge(start + e, idMap[rows[..m][j].manager.value], idMap[rows[..m][j].title]);
      assert rows[..m][j] == rows[j];
    } else {
      assert HasEdge(rows[m], idMap);
    }
  }

  /** Emits the edges in row order, continuing the id counter. */
  method EmitEdges(rows: seq<Row>, idMap: map<string, nat>, counter: nat) returns (edges: seq<Edge>, next: nat)
    ensures edges == EdgesFrom(rows, idMap, counter)
    ensures next == counter + |edges|
  {
    edges, next := [], counter;
    var j := 0;
    while j < |rows|
      invariant j <= |rows|
      invariant edges == EdgesFrom(rows[..j], idMap, counter)
      invariant next == counter + |edges|
    {
      var manager := rows[j].manager;
      var employee := rows[j].title;
      assert rows[..j + 1][..j] == rows[..j];
      if manager.Some? && manager.value in idMap && employee in idMap {
        edges := edges + [Edge(next, idMap[manager.value], idMap[employee])];
        next := next + 1;
      }
      j := j + 1;
    }
    assert rows[..j] == rows;
  }
}
