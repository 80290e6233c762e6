/** The depth of a title: the walk up its manager chain that counts one hop
    per manager found among the partition's titles. */
module Levels {
  import opened OrgData

  /** One hop of the walk: the manager of `t`, when that manager is itself
      a title of the partition; None when the walk stops at `t`. */
  function Step(rows: seq<Row>, t: string): (next: Option<string>)
    requires t in Titles(rows)
    ensures next.Some? ==> next.value in Titles(rows) && ManagerOf(rows, t) == next
    ensures next.None? <==> ManagerOf(rows, t).None? || ManagerOf(rows, t).value !in Titles(rows)
  {
    match ManagerOf(rows, t)
    case None => None
    case Some(m) => if m in Titles(rows) then Some(m) else None
  }

  /** The title reached after `k` hops from `t`; None once the walk has stopped. */
  function Reach(rows: seq<Row>, t: string, k: nat): (reached: Option<string>)
    requires t in Titles(rows)
    ensures reached.Some? ==> reached.value in Titles(rows)
    decreases k
  {
    if k == 0 then Some(t)
    else match Step(rows, t)
      case None => None
      case Some(m) => Reach(rows, m, k - 1)
  }

  /** The walk from `t` stops after exactly `d` hops. */
  ghost predicate IsDepth(rows: seq<Row>, t: string, d: nat)
    decreases d
  {
    t in Titles(rows) &&
    match Step(rows, t)
    case None => d == 0
    case Some(m) => d > 0 && IsDepth(rows, m, d - 1)
  }

  /** The walk from `t` stops. */
  ghost predicate Terminates(rows: seq<Row>, t: string)
  {
    t in Titles(rows) && exists d: nat :: IsDepth(rows, t, d)
  }

  /** The walk stops for every row: no manager chain runs into a cycle. */
  ghost predicate Acyclic(rows: seq<Row>)
  {
    forall j :: 0 <= j < |rows| ==> Terminates(rows, rows[j].title)
  }

  lemma {:induction false} DepthUnique(rows: seq<Row>, t: string, d1: nat, d2: nat)
    requires IsDepth(rows, t, d1) && IsDepth(rows, t, d2)
    ensures d1 == d2
    decreases d1
  {
    match Step(rows, t)
    case None =>
    case Some(m) => DepthUnique(rows, m, d1 - 1, d2 - 1);
  }

  /** The number of hops the walk from `t` makes: after that many hops the
      walk is still on a title of the partition, and that title has no
      manager among the partition's titles. */
  ghost function Depth(rows: seq<Row>, t: string): (d: nat)
    requires Terminates(rows, t)
    ensures IsDepth(rows, t, d)
    ensures Reach(rows, t, d).Some? && Step(rows, Reach(rows, t, d).value).None?
  {
    var d :| IsDepth(rows, t, d);
    ReachRemaining(rows, t, d, d);
    d
  }

  /** After `k` hops of a walk that makes `d`, the walk has `d - k` to go;
      after more than `d` it has stopped. */
  lemma {:induction false} ReachRemaining(rows: seq<Row>, t: string, d: nat, k: nat)
    requires IsDepth(rows, t, d)
    ensures k <= d ==> Reach(rows, t, k).Some? && IsDepth(rows, Reach(rows, t, k).value, d - k)
    ensures k > d ==> Reach(rows, t, k).None?
    decreases k
  {
    if k > 0 {
      match Step(rows, t)
      case None =>
      case Some(m) => ReachRemaining(rows, m, d - 1, k - 1);
    }
  }

  /** The depth is the number of hops: the walk reaches a title after `k`
      hops exactly when `k` is at most the depth, and the title it reaches
      after depth-many hops has no manager in the partition. */
  lemma DepthCountsHops(rows: seq<Row>, t: string, k: nat)
    requires t in Titles(rows) && Terminates(rows, t)
    ensures Reach(rows, t, k).Some? <==> k <= Depth(rows, t)
    ensures Reach(rows, t, Depth(rows, t)).Some?
    ensures Step(rows, Reach(rows, t, Depth(rows, t)).value).None?
  {
    var d := Depth(rows, t);
    ReachRemaining(rows, t, d, k);
    ReachRemaining(rows, t, d, d);
  }

  /** One hop up: the depth of a title is one more than its manager's, when
      that manager is in the partition, and zero otherwise (no manager, or an
      orphan whose manager lies outside the partition). */
  lemma DepthStep(rows: seq<Row>, t: string)
    requires t in Titles(rows) && Terminates(rows, t)
    ensures Depth(rows, t) == 0 <==> ManagerOf(rows, t).None? || ManagerOf(rows, t).value !in Titles(rows)
    ensures Step(rows, t).Some? ==>
      Terminates(rows, Step(rows, t).value) && Depth(rows, t) == Depth(rows, Step(rows, t).value) + 1
  {
    var d := Depth(rows, t);
    match Step(rows, t)
    case None =>
    case Some(m) =>
      assert IsDepth(rows, m, d - 1);
      DepthUnique(rows, m, d - 1, Depth(rows, m));
  }

  /** A walk that comes back to where it started never stops. */
  lemma CycleNeverTerminates(rows: seq<Row>, t: string, k: nat)
    requires t in Titles(rows) && k > 0 && Reach(rows, t, k) == Some(t)
    ensures !Terminates(rows, t)
  {
    if Terminates(rows, t) {
      var d := Depth(rows, t);
      ReachRemaining(rows, t, d, k);
      DepthUnique(rows, t, d, d - k);
    }
  }

  /** The depth walk over the partition, one manager lookup per hop. */
  method GetLevel(rows: seq<Row>, title: string) returns (level: nat)
    requires Terminates(rows, title)
    ensures IsDepth(rows, title, level)
  {
    ghost var d: nat :| IsDepth(rows, title, d);
    level := 0;
    var current := title;
    while ManagerOf(rows, current).Some?
      invariant current in Titles(rows)
      invariant level <= d && IsDepth(rows, current, d - level)
      decreases d - level
    {
      var manager := ManagerOf(rows, current).value;
      if manager !in Titles(rows) {
        break;
      }
      current := manager;
      level := level + 1;
    }
  }
}
