/** Deploy statistics: one query per instance, and one grouped query per chunk
    of instance ids. The table is a sequence of rows in storage order. */
module Summaries {
  import opened Keys
  import opened Logs

  datatype Summary = Summary(
    instance: Text, deployCount: nat, successCount: nat, errorCount: nat, lastDeployAt: Option<int>)

  predicate InWindow(l: Log, instance: Text, cutoff: int) {
    l.instance == instance && l.startedAt >= cutoff
  }

  /** COALESCE(completed_at, started_at). */
  function ActivityAt(l: Log): int {
    if l.completedAt.Some? then l.completedAt.value else l.startedAt
  }

  function Later(a: Option<int>, t: int): Option<int> {
    if a.Some? && a.value >= t then a else Some(t)
  }

  // ----- One instance -----

  datatype Counter = Deploys | Successes | Failures

  predicate Counts(c: Counter, l: Log) {
    && l.action == Deploy
    && match c
       case Deploys => true
       case Successes => l.status == Success
       case Failures => l.status == Error || l.status == Partial
  }

  /** The rows of the instance in the window that a counter counts. */
  function CountRows(rows: seq<Log>, instance: Text, cutoff: int, c: Counter): nat {
    if rows == [] then 0 else
      (if InWindow(rows[0], instance, cutoff) && Counts(c, rows[0]) then 1 else 0)
      + CountRows(rows[1..], instance, cutoff, c)
  }

  /** MAX(COALESCE(completed_at, started_at)) over all actions. */
  function LastActivity(rows: seq<Log>, instance: Text, cutoff: int): Option<int> {
    if rows == [] then None else
      var rest := LastActivity(rows[1..], instance, cutoff);
      if InWindow(rows[0], instance, cutoff) then Later(rest, ActivityAt(rows[0])) else rest
  }

  function SummarizeByInstance(rows: seq<Log>, instance: Text, cutoff: int): Summary {
    Summary(instance,
            CountRows(rows, instance, cutoff, Deploys),
            CountRows(rows, instance, cutoff, Successes),
            CountRows(rows, instance, cutoff, Failures),
            LastActivity(rows, instance, cutoff))
  }

  // ----- What the numbers mean -----

  /** The positions of the deploy logs of the instance in the window. */
  function DeploysInWindow(rows: seq<Log>, instance: Text, cutoff: int): set<nat> {
    set k: nat | k < |rows| && rows[k].instance == instance && rows[k].startedAt >= cutoff && rows[k].action == Deploy
  }

  function WithStatus(rows: seq<Log>, at: set<nat>, statuses: set<Status>): set<nat> {
    set k | k in at && k < |rows| && rows[k].status in statuses
  }

  /** The counts are numbers of rows: all deploys of the window, the successful
      ones, and the failed or partial ones. */
  lemma CountsAreNumbersOfRows(rows: seq<Log>, instance: Text, cutoff: int)
    ensures var s, deploys := SummarizeByInstance(rows, instance, cutoff), DeploysInWindow(rows, instance, cutoff);
      && s.instance == instance
      && s.deployCount == |deploys|
      && s.successCount == |WithStatus(rows, deploys, {Success})|
      && s.errorCount == |WithStatus(rows, deploys, {Error, Partial})|
  {
    var all := {Running, Success, Error, Partial};
    var deploys := DeploysInWindow(rows, instance, cutoff);
    forall s: Status ensures s in all {
      match s { case Running => case Success => case Error => case Partial => }
    }
    CountIsANumberOfRows(rows, instance, cutoff, Deploys, all);
    CountIsANumberOfRows(rows, instance, cutoff, Successes, {Success});
    CountIsANumberOfRows(rows, instance, cutoff, Failures, {Error, Partial});
    assert WithStatus(rows, deploys, all) == deploys;
  }

  function Positions(rows: seq<Log>, instance: Text, cutoff: int, statuses: set<Status>): set<nat> {
    WithStatus(rows, DeploysInWindow(rows, instance, cutoff), statuses)
  }

  function Shift(s: set<nat>): set<nat> {
    set k | k in s :: k + 1
  }

  lemma ShiftMember(s: set<nat>, y: nat)
    ensures y in Shift(s) <==> y > 0 && y - 1 in s
  {
    if y > 0 && y - 1 in s {
      var k: nat := y - 1;
      assert k in s && k + 1 == y;
    }
  }

  lemma {:induction false} ShiftKeepsSize(s: set<nat>)
    ensures |Shift(s)| == |s|
  {
    if s == {} {
      assert Shift(s) == {};
    } else {
      var x :| x in s;
      ShiftKeepsSize(s - {x});
      forall y: nat ensures y in Shift(s) <==> y in Shift(s - {x}) + {x + 1} {
        ShiftMember(s, y);
        ShiftMember(s - {x}, y);
      }
      ShiftMember(s - {x}, x + 1);
      assert Shift(s) == Shift(s - {x}) + {x + 1};
    }
  }

  predicate IsCounted(l: Log, instance: Text, cutoff: int, statuses: set<Status>) {
    l.instance == instance && l.startedAt >= cutoff && l.action == Deploy && l.status in statuses
  }

  lemma PositionsOfFirst(rows: seq<Log>, instance: Text, cutoff: int, statuses: set<Status>)
    requires rows != []
    ensures |Positions(rows, instance, cutoff, statuses)| ==
      (if IsCounted(rows[0], instance, cutoff, statuses) then 1 else 0)
      + |Positions(rows[1..], instance, cutoff, statuses)|
  {
    var all, rest := Positions(rows, instance, cutoff, statuses), Positions(rows[1..], instance, cutoff, statuses);
    ShiftKeepsSize(rest);
    ShiftMember(rest, 0);
    var first: set<nat> := if IsCounted(rows[0], instance, cutoff, statuses) then {0} else {};
    forall y: nat ensures y in all <==> y in first + Shift(rest) {
      ShiftMember(rest, y);
      if 0 < y < |rows| { assert rows[y] == rows[1..][y - 1]; }
    }
    assert all == first + Shift(rest);
  }

  lemma {:induction false} CountIsANumberOfRows(
    rows: seq<Log>, instance: Text, cutoff: int, c: Counter, statuses: set<Status>)
    requires forall s :: s in statuses <==>
      c == Deploys || (c == Successes && s == Success) || (c == Failures && (s == Error || s == Partial))
    ensures CountRows(rows, instance, cutoff, c) == |Positions(rows, instance, cutoff, statuses)|
  {
    if rows == [] {
      assert Positions(rows, instance, cutoff, statuses) == {};
    } else {
      CountIsANumberOfRows(rows[1..], instance, cutoff, c, statuses);
      PositionsOfFirst(rows, instance, cutoff, statuses);
      assert rows[0].status in statuses || rows[0].status !in statuses;
    }
  }

  /** The last activity is the latest completion time in the window, or start
      time for a row without one, over all actions; there is none exactly when
      the instance has no row in the window. */
  lemma {:induction false} LastActivityIsTheMaximum(rows: seq<Log>, instance: Text, cutoff: int)
    ensures var last := SummarizeByInstance(rows, instance, cutoff).lastDeployAt;
      && (forall l :: l in rows && l.instance == instance && l.startedAt >= cutoff ==>
            last.Some? && (match l.completedAt case Some(t) => t <= last.value case None => l.startedAt <= last.value))
      && (last.Some? ==>
            exists l :: l in rows && l.instance == instance && l.startedAt >= cutoff
              && (l.completedAt == last || (l.completedAt.None? && l.startedAt == last.value)))
  {
    if rows != [] {
      LastActivityIsTheMaximum(rows[1..], instance, cutoff);
      assert rows == [rows[0]] + rows[1..];
      var last := LastActivity(rows, instance, cutoff);
      if last.Some? && InWindow(rows[0], instance, cutoff) && last.value == ActivityAt(rows[0]) {
        assert rows[0] in rows;
      }
    }
  }

  // ----- One chunk of ids, GROUP BY stack_instance_id -----

  function Zero(instance: Text): Summary {
    Summary(instance, 0, 0, 0, None)
  }

  /** The aggregates of a group after one more row. */
  function AddRow(s: Summary, l: Log): Summary {
    s.(deployCount := s.deployCount + (if l.action == Deploy then 1 else 0),
       successCount := s.successCount + (if l.action == Deploy && l.status == Success then 1 else 0),
       errorCount := s.errorCount + (if l.action == Deploy && (l.status == Error || l.status == Partial) then 1 else 0),
       lastDeployAt := Later(s.lastDeployAt, ActivityAt(l)))
  }

  function Grouped(rows: seq<Log>, ids: set<Text>, cutoff: int): map<Text, Summary> {
    if rows == [] then map[] else
      var rest := Grouped(rows[1..], ids, cutoff);
      var l := rows[0];
      if l.instance in ids && l.startedAt >= cutoff
      then rest[l.instance := AddRow(if l.instance in rest then rest[l.instance] else Zero(l.instance), l)]
      else rest
  }

  ghost predicate HasLog(rows: seq<Log>, instance: Text, cutoff: int) {
    exists l :: l in rows && InWindow(l, instance, cutoff)
  }

  lemma {:induction false} NoLogMeansZero(rows: seq<Log>, instance: Text, cutoff: int)
    requires !HasLog(rows, instance, cutoff)
    ensures SummarizeByInstance(rows, instance, cutoff) == Zero(instance)
  {
    if rows != [] {
      assert !InWindow(rows[0], instance, cutoff) by { assert rows[0] in rows; }
      assert forall l :: l in rows[1..] ==> l in rows;
      NoLogMeansZero(rows[1..], instance, cutoff);
    }
  }

  lemma HasLogSplits(rows: seq<Log>, instance: Text, cutoff: int)
    requires rows != []
    ensures HasLog(rows, instance, cutoff) <==>
      InWindow(rows[0], instance, cutoff) || HasLog(rows[1..], instance, cutoff)
  {
    assert rows == [rows[0]] + rows[1..];
  }

  /** A group is exactly the summary of its instance. */
  lemma {:induction false} GroupIsSummary(rows: seq<Log>, ids: set<Text>, cutoff: int, i: Text)
    ensures i in Grouped(rows, ids, cutoff) <==> i in ids && HasLog(rows, i, cutoff)
    ensures i in Grouped(rows, ids, cutoff) ==> Grouped(rows, ids, cutoff)[i] == SummarizeByInstance(rows, i, cutoff)
  {
    if rows != [] {
      GroupIsSummary(rows[1..], ids, cutoff, i);
      HasLogSplits(rows, i, cutoff);
      if !HasLog(rows[1..], i, cutoff) {
        NoLogMeansZero(rows[1..], i, cutoff);
      }
    }
  }

  // ----- The batch loop -----

  const ChunkSize: nat := 500

  /** One grouped query per 500 ids: every id with a log in the window gets the
      summary of the single query, every other id is absent and its single
      summary is all zero. Ids may repeat, also across chunks. */
  method SummarizeBatch(rows: seq<Log>, ids: seq<Text>, cutoff: int) returns (result: map<Text, Summary>)
    ensures forall i :: i in result <==> i in ids && HasLog(rows, i, cutoff)
    ensures forall i :: i in result ==> result[i] == SummarizeByInstance(rows, i, cutoff)
    ensures forall i :: i in ids && i !in result ==> SummarizeByInstance(rows, i, cutoff) == Zero(i)
  {
    result := map[];
    var start := 0;
    while start < |ids|
      invariant 0 <= start
      invariant forall i :: i in result <==> i in ids[..Min(start, |ids|)] && HasLog(rows, i, cutoff)
      invariant forall i :: i in result ==> result[i] == SummarizeByInstance(rows, i, cutoff)
      decreases |ids| - start
    {
      var end := Min(start + ChunkSize, |ids|);
      var chunk := set i | i in ids[start..end];
      forall i {
        GroupIsSummary(rows, chunk, cutoff, i);
      }
      assert ids[..end] == ids[..start] + ids[start..end];
      result := result + Grouped(rows, chunk, cutoff);
      start := start + ChunkSize;
    }
    forall i | i in ids && i !in result {
      NoLogMeansZero(rows, i, cutoff);
    }
    assert ids[..|ids|] == ids;
  }

  function Min(a: nat, b: nat): nat {
    if a < b then a else b
  }
}
