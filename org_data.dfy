/** Rows of the uploaded sheet, the per-location partition, the manager
    lookup and orphan detection. */
module OrgData {

  datatype Option<+T> = None | Some(value: T)

  /** One row of the sheet, seen from the location column being processed:
      `flag` is the number in that column and `manager` is None for an
      empty Manager Title cell. */
  datatype Row = Row(title: string, manager: Option<string>, flag: int)

  /** The rows that belong to a location: those whose flag is positive. */
  function Partition(rows: seq<Row>): (part: seq<Row>)
    ensures |part| <= |rows|
    ensures forall r :: r in part <==> r in rows && r.flag > 0
  {
    if rows == [] then []
    else if rows[0].flag > 0 then [rows[0]] + Partition(rows[1..])
    else Partition(rows[1..])
  }

  /** Filtering keeps the sheet order: it distributes over concatenation. */
  lemma {:induction false} PartitionKeepsOrder(a: seq<Row>, b: seq<Row>)
    ensures Partition(a + b) == Partition(a) + Partition(b)
  {
    if a == [] {
      assert a + b == b;
    } else {
      assert (a + b)[1..] == a[1..] + b;
      PartitionKeepsOrder(a[1..], b);
    }
  }

  /** The values of the Title column. */
  function Titles(rows: seq<Row>): set<string>
  {
    if rows == [] then {} else {rows[0].title} + Titles(rows[1..])
  }

  /** A title is in the Title column exactly when some row carries it. */
  lemma {:induction false} TitlesOfRows(rows: seq<Row>, t: string)
    ensures t in Titles(rows) <==> exists j :: 0 <= j < |rows| && rows[j].title == t
  {
    if rows != [] {
      TitlesOfRows(rows[1..], t);
      if t in Titles(rows[1..]) {
        var j :| 0 <= j < |rows| - 1 && rows[1..][j].title == t;
        assert rows[j + 1].title == t;
      }
      if exists j :: 0 <= j < |rows| && rows[j].title == t {
        var j :| 0 <= j < |rows| && rows[j].title == t;
        if j > 0 {
          assert rows[1..][j - 1].title == t;
        }
      }
    }
  }

  lemma TitleOfRow(rows: seq<Row>, j: int)
    requires 0 <= j < |rows|
    ensures rows[j].title in Titles(rows)
  {
    TitlesOfRows(rows, rows[j].title);
  }

  /** A row whose manager is given but is not a title of the partition. */
  predicate IsOrphan(part: seq<Row>, r: Row)
  {
    r.manager.Some? && r.manager.value !in Titles(part)
  }

  /** Titles of the rows whose manager is given but not among `titles`, in row order. */
  function OrphansAmong(rows: seq<Row>, titles: set<string>): (orphans: seq<string>)
    ensures |orphans| <= |rows|
    ensures orphans == [] <==> forall r :: r in rows ==> r.manager.None? || r.manager.value in titles
    ensures forall t :: t in orphans <==>
      exists r :: r in rows && r.title == t && r.manager.Some? && r.manager.value !in titles
  {
    if rows == [] then []
    else
      var rest := OrphansAmong(rows[1..], titles);
      assert forall r :: r in rows <==> r == rows[0] || r in rows[1..];
      if rows[0].manager.Some? && rows[0].manager.value !in titles then [rows[0].title] + rest
      else rest
  }

  /** The orphaned titles listed for a partition. */
  function OrphanedTitles(part: seq<Row>): (orphans: seq<string>)
    ensures orphans == [] <==> forall r :: r in part ==> !IsOrphan(part, r)
    ensures forall t :: t in orphans <==> exists r :: r in part && r.title == t && IsOrphan(part, r)
  {
    OrphansAmong(part, Titles(part))
  }

  /** Index of the first row titled `t`. */
  function FirstIndex(rows: seq<Row>, t: string): (i: nat)
    requires t in Titles(rows)
    ensures i < |rows| && rows[i].title == t
    ensures forall j :: 0 <= j < i ==> rows[j].title != t
  {
    if rows[0].title == t then 0
    else 1 + FirstIndex(rows[1..], t)
  }

  /** The manager found by looking `t` up: that of the first row titled `t`. */
  function ManagerOf(rows: seq<Row>, t: string): (m: Option<string>)
    requires t in Titles(rows)
    ensures exists j :: (0 <= j < |rows| && rows[j].title == t && rows[j].manager == m &&
      forall i :: 0 <= i < j ==> rows[i].title != t)
  {
    rows[FirstIndex(rows, t)].manager
  }
}
