/** Root overrides: the caller's answer, per orphaned title, to "who should
    this title report to?". */
module Overrides {
  import opened OrgData

  /** The choice that means "no manager". */
  const NoManager: string := "None"

  /** The manager a choice stands for. */
  function Target(choice: string): Option<string>
  {
    if choice == NoManager then None else Some(choice)
  }

  /** A row after the overrides: its manager is replaced when its title is a key. */
  function OverrideRow(r: Row, overrides: map<string, string>): Row
  {
    if r.title in overrides then r.(manager := Target(overrides[r.title])) else r
  }

  /** The partition after every override has been applied to it. */
  function Overridden(rows: seq<Row>, overrides: map<string, string>): seq<Row>
  {
    seq(|rows|, i requires 0 <= i < |rows| => OverrideRow(rows[i], overrides))
  }

  /** Applies the overrides one key at a time, each to every row with that title. */
  method ApplyOverrides(rows: seq<Row>, overrides: map<string, string>) returns (res: seq<Row>)
    ensures |res| == |rows|
    ensures forall i :: 0 <= i < |rows| ==>
      res[i].title == rows[i].title && res[i].flag == rows[i].flag &&
      res[i].manager == (if rows[i].title in overrides then Target(overrides[rows[i].title]) else rows[i].manager)
    ensures res == Overridden(rows, overrides)
  {
    res := rows;
    var pending := overrides.Keys;
    while pending != {}
      invariant pending <= overrides.Keys
      invariant |res| == |rows|
      invariant forall i :: 0 <= i < |rows| ==>
        res[i] == if rows[i].title in pending then rows[i] else OverrideRow(rows[i], overrides)
      decreases pending
    {
      var title :| title in pending;
      var newManager := Target(overrides[title]);
      var j := 0;
      while j < |res|
        invariant 0 <= j <= |res| == |rows|
        invariant forall i :: 0 <= i < j ==>
          res[i] == if rows[i].title in pending - {title} then rows[i] else OverrideRow(rows[i], overrides)
        invariant forall i :: j <= i < |rows| ==>
          res[i] == if rows[i].title in pending then rows[i] else OverrideRow(rows[i], overrides)
      {
        if res[j].title == title {
          res := res[j := res[j].(manager := newManager)];
        }
        j := j + 1;
      }
      pending := pending - {title};
    }
  }

  /** Overrides never add, drop or rename a title. */
  lemma OverridesKeepTitles(rows: seq<Row>, overrides: map<string, string>)
    ensures Titles(Overridden(rows, overrides)) == Titles(rows)
  {
    var res := Overridden(rows, overrides);
    forall t ensures t in Titles(res) <==> t in Titles(rows) {
      TitlesOfRows(rows, t);
      TitlesOfRows(res, t);
      if t in Titles(rows) {
        var j :| 0 <= j < |rows| && rows[j].title == t;
        assert res[j].title == t;
      }
      if t in Titles(res) {
        var j :| 0 <= j < |res| && res[j].title == t;
        assert rows[j].title == t;
      }
    }
  }

  /** Reapplying the same overrides changes nothing further. */
  lemma OverridesIdempotent(rows: seq<Row>, overrides: map<string, string>)
    ensures Overridden(Overridden(rows, overrides), overrides) == Overridden(rows, overrides)
  {
  }

  /** When every orphaned title is mapped to "None" or to a title of the
      partition, and every choice is of that kind, no orphan is left. */
  lemma OverridesResolveOrphans(part: seq<Row>, overrides: map<string, string>)
    requires forall t :: t in OrphanedTitles(part) ==> t in overrides
    requires forall t :: t in overrides ==> overrides[t] == NoManager || overrides[t] in Titles(part)
    ensures OrphanedTitles(Overridden(part, overrides)) == []
  {
    OverridesKeepTitles(part, overrides);
  }
}
