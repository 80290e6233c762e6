/** Grouping of the partition's titles by depth, and the ascending order
    in which the depths are visited. The buckets are stated over `depths`,
    the depth of each row in row order. */
module Grouping {
  import opened OrgData
  import opened Levels

  /** The depth of every row, in row order. */
  ghost function Depths(rows: seq<Row>): (depths: seq<nat>)
    requires Acyclic(rows)
    ensures |depths| == |rows|
    ensures forall j :: 0 <= j < |rows| ==> depths[j] == Depth(rows, rows[j].title)
  {
    seq(|rows|, j requires 0 <= j < |rows| => Depth(rows, rows[j].title))
  }

  /** The titles of the first `n` rows whose depth is `d`, in row order. */
  function BucketUpTo(rows: seq<Row>, depths: seq<nat>, n: nat, d: nat): seq<string>
    requires n <= |rows| == |depths|
  {
    if n == 0 then []
    else BucketUpTo(rows, depths, n - 1, d) + (if depths[n - 1] == d then [rows[n - 1].title] else [])
  }

  /** The bucket of depth `d`: the titles of all rows at that depth, in row order. */
  function Bucket(rows: seq<Row>, depths: seq<nat>, d: nat): seq<string>
    requires |rows| == |depths|
  {
    BucketUpTo(rows, depths, |rows|, d)
  }

  /** The position of row `j` within its bucket: how many earlier rows share its depth. */
  function Rank(rows: seq<Row>, depths: seq<nat>, j: int): nat
    requires |rows| == |depths| && 0 <= j < |rows|
  {
    |BucketUpTo(rows, depths, j, depths[j])|
  }

  /** How many of the first `n` rows lie above depth `limit`. */
  function CountBelow(depths: seq<nat>, n: nat, limit: nat): nat
    requires n <= |depths|
  {
    if n == 0 then 0
    else CountBelow(depths, n - 1, limit) + (if depths[n - 1] < limit then 1 else 0)
  }

  /** `levels` groups the first `n` rows by depth. */
  ghost predicate GroupsUpTo(rows: seq<Row>, depths: seq<nat>, n: nat, levels: map<nat, seq<string>>)
    requires n <= |rows| == |depths|
  {
    && (forall d :: d in levels <==> BucketUpTo(rows, depths, n, d) != [])
    && (forall d :: d in levels ==> levels[d] == BucketUpTo(rows, depths, n, d))
  }

  /** Appending row `n`'s title to the bucket of its depth groups one row more. */
  lemma GroupsOneMore(rows: seq<Row>, depths: seq<nat>, n: nat, levels: map<nat, seq<string>>)
    requires n < |rows| == |depths| && GroupsUpTo(rows, depths, n, levels)
    ensures GroupsUpTo(rows, depths, n + 1, levels[depths[n] :=
      (if depths[n] in levels then levels[depths[n]] else []) + [rows[n].title]])
  {
    var next := levels[depths[n] := (if depths[n] in levels then levels[depths[n]] else []) + [rows[n].title]];
    forall d ensures d in next <==> BucketUpTo(rows, depths, n + 1, d) != [] {
      assert BucketUpTo(rows, depths, n + 1, d) == BucketUpTo(rows, depths, n, d) + (if depths[n] == d then [rows[n].title] else []);
    }
  }

  /** Groups the titles by depth; a depth is a key once some row has it. */
  method GroupByLevel(rows: seq<Row>) returns (levels: map<nat, seq<string>>)
    requires Acyclic(rows)
    ensures forall d :: d in levels <==> Bucket(rows, Depths(rows), d) != []
    ensures forall d :: d in levels ==> levels[d] == Bucket(rows, Depths(rows), d)
  {
    ghost var depths := Depths(rows);
    levels := map[];
    var i := 0;
    while i < |rows|
      invariant i <= |rows|
      invariant GroupsUpTo(rows, depths, i, levels)
    {
      var level := GetLevel(rows, rows[i].title);
      DepthUnique(rows, rows[i].title, level, depths[i]);
      GroupsOneMore(rows, depths, i, levels);
      var bucket := if level in levels then levels[level] else [];
      levels := levels[level := bucket + [rows[i].title]];
      i := i + 1;
    }
  }

  /** A shorter prefix of the rows gives a prefix of the bucket. */
  lemma {:induction false} BucketPrefix(rows: seq<Row>, depths: seq<nat>, n: nat, m: nat, d: nat)
    requires n <= m <= |rows| == |depths|
    ensures |BucketUpTo(rows, depths, n, d)| <= |BucketUpTo(rows, depths, m, d)|
    ensures BucketUpTo(rows, depths, m, d)[..|BucketUpTo(rows, depths, n, d)|] == BucketUpTo(rows, depths, n, d)
    decreases m
  {
    if n < m {
      BucketPrefix(rows, depths, n, m - 1, d);
    }
  }

  /** Every row puts its title into the bucket of its depth, at its rank. */
  lemma RowInBucket(rows: seq<Row>, depths: seq<nat>, j: int)
    requires |rows| == |depths| && 0 <= j < |rows|
    ensures Rank(rows, depths, j) < |Bucket(rows, depths, depths[j])|
    ensures Bucket(rows, depths, depths[j])[Rank(rows, depths, j)] == rows[j].title
  {
    BucketPrefix(rows, depths, j + 1, |rows|, depths[j]);
  }

  /** Rows at the same depth keep their row order inside the bucket. */
  lemma RankKeepsOrder(rows: seq<Row>, depths: seq<nat>, i: int, j: int)
    requires |rows| == |depths| && 0 <= i < j < |rows| && depths[i] == depths[j]
    ensures Rank(rows, depths, i) < Rank(rows, depths, j)
  {
    BucketPrefix(rows, depths, i + 1, j, depths[i]);
  }

  /** Every entry of a bucket comes from a row at that depth with that rank. */
  lemma {:induction false} BucketEntryOwner(rows: seq<Row>, depths: seq<nat>, n: nat, d: nat, k: nat)
    requires n <= |rows| == |depths| && k < |BucketUpTo(rows, depths, n, d)|
    ensures exists j :: 0 <= j < n && depths[j] == d && Rank(rows, depths, j) == k
    decreases n
  {
    if k < |BucketUpTo(rows, depths, n - 1, d)| {
      BucketEntryOwner(rows, depths, n - 1, d, k);
    } else {
      assert depths[n - 1] == d && Rank(rows, depths, n - 1) == k;
    }
  }

  /** Raising the limit by one adds exactly the bucket at the old limit. */
  lemma {:induction false} CountBelowStep(rows: seq<Row>, depths: seq<nat>, n: nat, limit: nat)
    requires n <= |rows| == |depths|
    ensures CountBelow(depths, n, limit + 1) == CountBelow(depths, n, limit) + |BucketUpTo(rows, depths, n, limit)|
  {
    if n > 0 {
      CountBelowStep(rows, depths, n - 1, limit);
    }
  }

  /** With a limit above every depth, all rows are counted. */
  lemma {:induction false} CountBelowAll(depths: seq<nat>, n: nat, limit: nat)
    requires n <= |depths|
    requires forall j :: 0 <= j < n ==> depths[j] < limit
    ensures CountBelow(depths, n, limit) == n
  {
    if n > 0 {
      CountBelowAll(depths, n - 1, limit);
    }
  }

  /** No row lies above depth zero. */
  lemma {:induction false} CountBelowNone(depths: seq<nat>, n: nat)
    requires n <= |depths|
    ensures CountBelow(depths, n, 0) == 0
  {
    if n > 0 {
      CountBelowNone(depths, n - 1);
    }
  }

  /** A bound above every depth. */
  function DepthCeiling(depths: seq<nat>): (c: nat)
    ensures forall j :: 0 <= j < |depths| ==> depths[j] < c
  {
    if depths == [] then 0
    else
      var c := DepthCeiling(depths[..|depths| - 1]);
      var last := depths[|depths| - 1];
      if last < c then c else last + 1
  }

  /** A higher limit counts at least as many rows. */
  lemma {:induction false} CountBelowGrows(depths: seq<nat>, n: nat, lo: nat, hi: nat)
    requires n <= |depths| && lo <= hi
    ensures CountBelow(depths, n, lo) <= CountBelow(depths, n, hi)
  {
    if n > 0 {
      CountBelowGrows(depths, n - 1, lo, hi);
    }
  }

  /** The position of row `j`'s cell among all cells: the rows of smaller
      depth come first, then the rows of its own depth before it. */
  function NodeIndex(rows: seq<Row>, depths: seq<nat>, j: int): nat
    requires |rows| == |depths| && 0 <= j < |rows|
  {
    CountBelow(depths, |rows|, depths[j]) + Rank(rows, depths, j)
  }

  /** No two rows share a position. */
  lemma NodeIndexInjective(rows: seq<Row>, depths: seq<nat>, i: int, j: int)
    requires |rows| == |depths| && 0 <= i < |rows| && 0 <= j < |rows| && i != j
    ensures NodeIndex(rows, depths, i) != NodeIndex(rows, depths, j)
  {
    if depths[i] == depths[j] {
      if i < j {
        RankKeepsOrder(rows, depths, i, j);
      } else {
        RankKeepsOrder(rows, depths, j, i);
      }
    } else {
      var (a, b) := if depths[i] < depths[j] then (i, j) else (j, i);
      RowInBucket(rows, depths, a);
      CountBelowStep(rows, depths, |rows|, depths[a]);
      CountBelowGrows(depths, |rows|, depths[a] + 1, depths[b]);
    }
  }

  /** The number of titles in the buckets listed by `ks`. */
  function Total(levels: map<nat, seq<string>>, ks: seq<nat>): nat
    requires forall d :: d in ks ==> d in levels
  {
    if ks == [] then 0
    else Total(levels, ks[..|ks| - 1]) + |levels[ks[|ks| - 1]]|
  }

  /** Strictly increasing. */
  predicate Ascending(ks: seq<nat>)
  {
    forall p, q :: 0 <= p < q < |ks| ==> ks[p] < ks[q]
  }

  /** The grouping of `rows` by `depths`: one non-empty bucket per depth that occurs. */
  ghost predicate IsGrouping(rows: seq<Row>, depths: seq<nat>, levels: map<nat, seq<string>>)
    requires |rows| == |depths|
  {
    && (forall d :: d in levels <==> Bucket(rows, depths, d) != [])
    && (forall d :: d in levels ==> levels[d] == Bucket(rows, depths, d))
  }

  /** In an ascending list of depths below `limit` that contains `limit - 1`,
      that depth comes last, and the rest are the listed depths below it. */
  lemma DropLast(ks: seq<nat>, limit: nat)
    requires Ascending(ks) && limit > 0 && limit - 1 in ks
    requires forall d :: d in ks ==> d < limit
    ensures ks != [] && ks[|ks| - 1] == limit - 1
    ensures forall d :: d in ks[..|ks| - 1] <==> d in ks && d < limit - 1
  {
    var n := |ks| - 1;
    assert ks[n] in ks;
    forall d | d in ks[..n] ensures d < limit - 1 {
      var q :| 0 <= q < n && ks[..n][q] == d;
      assert ks[q] < ks[n];
    }
    forall d | d in ks && d < limit - 1 ensures d in ks[..n] {
      var q :| 0 <= q < |ks| && ks[q] == d;
      assert q != n;
      assert ks[..n][q] == d;
    }
  }

  /** Bucket sizes sum to row counts: when `ks` lists in ascending order
      exactly the depths below `limit` that hold a row, its buckets hold
      exactly the rows above `limit`. */
  lemma {:induction false} TotalCountsRows(rows: seq<Row>, depths: seq<nat>, levels: map<nat, seq<string>>, ks: seq<nat>, limit: nat)
    requires |rows| == |depths| && IsGrouping(rows, depths, levels)
    requires Ascending(ks)
    requires forall d :: d in ks <==> d < limit && d in levels
    ensures Total(levels, ks) == CountBelow(depths, |rows|, limit)
    decreases limit
  {
    if limit == 0 {
      CountBelowNone(depths, |rows|);
    } else {
      var top := limit - 1;
      CountBelowStep(rows, depths, |rows|, top);
      if top in levels {
        DropLast(ks, limit);
        TotalCountsRows(rows, depths, levels, ks[..|ks| - 1], top);
      } else {
        TotalCountsRows(rows, depths, levels, ks, top);
      }
    }
  }

  /** A finite set of depths holding `x` has a least element. */
  lemma {:induction false} LeastExists(s: set<nat>, x: nat)
    requires x in s
    ensures exists m :: m in s && forall y :: y in s ==> m <= y
    decreases x
  {
    if !forall y :: y in s ==> x <= y {
      var y :| y in s && y < x;
      LeastExists(s, y);
    }
  }

  /** The keys of the grouping, in ascending order. */
  method SortedKeys(keys: set<nat>) returns (ks: seq<nat>)
    ensures Ascending(ks)
    ensures forall d :: d in ks <==> d in keys
  {
    ks := [];
    var rest := keys;
    while rest != {}
      invariant rest <= keys
      invariant Ascending(ks)
      invariant forall d :: d in keys <==> d in ks || d in rest
      invariant forall p, y :: 0 <= p < |ks| && y in rest ==> ks[p] < y
      decreases rest
    {
      var some :| some in rest;
      LeastExists(rest, some);
      var least :| least in rest && forall y :: y in rest ==> least <= y;
      ks := ks + [least];
      rest := rest - {least};
    }
  }
}
