/** Retention of deploy logs: the keep rule, the batched delete, its safety
    next to other writers, and what the history highlights still see. */
module Retention {
  import opened Keys
  import opened Logs

  datatype Db = Db(logs: map<Text, Log>, instances: set<Text>)

  function KeyOf(logs: map<Text, Log>, id: Text): Key
    requires id in logs
  {
    Key(logs[id].startedAt, id)
  }

  /** newer(a, b): log a of the same instance started after log b, ties by id. */
  predicate Newer(logs: map<Text, Log>, a: Text, b: Text)
    requires a in logs && b in logs
  {
    logs[a].instance == logs[b].instance && Less(KeyOf(logs, b), KeyOf(logs, a))
  }

  predicate NewerHistory(logs: map<Text, Log>, a: Text, b: Text)
    requires a in logs && b in logs
  {
    IsHistory(logs[a]) && Newer(logs, a, b)
  }

  predicate NewerSuccess(logs: map<Text, Log>, a: Text, b: Text)
    requires a in logs && b in logs
  {
    NewerHistory(logs, a, b) && logs[a].status == Success
  }

  predicate NewerDeploy(logs: map<Text, Log>, a: Text, b: Text)
    requires a in logs && b in logs
  {
    logs[a].action == Deploy && logs[a].status == Success && Newer(logs, a, b)
  }

  /** The SQL condition of the id select, with its nested EXISTS. */
  predicate Deletable(db: Db, id: Text)
    requires id in db.logs
  {
    var l := db.logs[id];
    || l.instance !in db.instances
    || !IsHistory(l)
    || ((exists nx :: nx in db.logs && NewerHistory(db.logs, nx, id))
        && (|| l.status != Success
            || ((l.action != Deploy || exists nd :: nd in db.logs && NewerDeploy(db.logs, nd, id))
                && exists n1 :: n1 in db.logs && NewerSuccess(db.logs, n1, id)
                     && exists n2 :: n2 in db.logs && NewerSuccess(db.logs, n2, n1))))
  }

  // ----- What the keep rule means -----

  ghost function HistoryAfter(db: Db, id: Text): set<Text>
    requires id in db.logs
  {
    set x | x in db.logs && NewerHistory(db.logs, x, id)
  }

  ghost function SuccessesAfter(db: Db, id: Text): set<Text>
    requires id in db.logs
  {
    set x | x in db.logs && NewerSuccess(db.logs, x, id)
  }

  ghost function DeploysAfter(db: Db, id: Text): set<Text>
    requires id in db.logs
  {
    set x | x in db.logs && NewerDeploy(db.logs, x, id)
  }

  /** Log x started after log y, or at the same time with the greater id. */
  predicate IsLater(db: Db, x: Text, y: Text)
    requires x in db.logs && y in db.logs
  {
    db.logs[x].startedAt > db.logs[y].startedAt
    || (db.logs[x].startedAt == db.logs[y].startedAt && TextLess(y, x))
  }

  /** The three sets of the keep list, column by column. */
  lemma LaterLogsMean(db: Db, id: Text, x: Text)
    requires id in db.logs
    ensures x in HistoryAfter(db, id) <==>
      && x in db.logs && db.logs[x].instance == db.logs[id].instance
      && (db.logs[x].action == Deploy || db.logs[x].action == Rollback) && IsLater(db, x, id)
    ensures x in SuccessesAfter(db, id) <==>
      && x in db.logs && db.logs[x].instance == db.logs[id].instance && db.logs[x].status == Success
      && (db.logs[x].action == Deploy || db.logs[x].action == Rollback) && IsLater(db, x, id)
    ensures x in DeploysAfter(db, id) <==>
      && x in db.logs && db.logs[x].instance == db.logs[id].instance && db.logs[x].status == Success
      && db.logs[x].action == Deploy && IsLater(db, x, id)
  {}

  /** The documented promise: for an existing instance, keep the newest deploy
      or rollback log, the newest successful deploy, and the two newest
      successful deploy or rollback logs. */
  ghost predicate Protected(db: Db, id: Text)
    requires id in db.logs
  {
    var l := db.logs[id];
    && l.instance in db.instances
    && IsHistory(l)
    && (|| HistoryAfter(db, id) == {}
        || (l.status == Success && l.action == Deploy && DeploysAfter(db, id) == {})
        || (l.status == Success && |SuccessesAfter(db, id)| < 2))
  }

  lemma TwoNewerIsAChain(db: Db, id: Text)
    requires id in db.logs
    ensures |SuccessesAfter(db, id)| >= 2 <==>
      exists n1 :: n1 in db.logs && NewerSuccess(db.logs, n1, id)
        && exists n2 :: n2 in db.logs && NewerSuccess(db.logs, n2, n1)
  {
    var s := SuccessesAfter(db, id);
    if |s| >= 2 {
      var a :| a in s;
      var rest := s - {a};
      assert |rest| == |s| - 1;
      var b :| b in rest;
      LessTrichotomy(KeyOf(db.logs, a), KeyOf(db.logs, b));
      assert NewerSuccess(db.logs, b, a) || NewerSuccess(db.logs, a, b);
    }
    if n1 :| n1 in db.logs && NewerSuccess(db.logs, n1, id)
             && exists n2 :: n2 in db.logs && NewerSuccess(db.logs, n2, n1) {
      var n2 :| n2 in db.logs && NewerSuccess(db.logs, n2, n1);
      LessTransitive(KeyOf(db.logs, id), KeyOf(db.logs, n1), KeyOf(db.logs, n2));
      LessTrichotomy(KeyOf(db.logs, n1), KeyOf(db.logs, n2));
      var pair := {n1, n2};
      assert pair <= s && |pair| == 2;
      SubsetIsSmaller(pair, s);
    }
  }

  lemma {:induction false} SubsetIsSmaller<T>(a: set<T>, b: set<T>)
    requires a <= b
    ensures |a| <= |b|
  {
    assert b == a + (b - a);
  }

  /** The nested EXISTS of the statement and the documented keep list agree on
      every table. */
  lemma KeepRuleMeansTheKeepList(db: Db, id: Text)
    requires id in db.logs
    ensures Deletable(db, id) <==> !Protected(db, id)
  {
    TwoNewerIsAChain(db, id);
    if nx :| nx in db.logs && NewerHistory(db.logs, nx, id) {
      assert nx in HistoryAfter(db, id);
    }
    if nd :| nd in db.logs && NewerDeploy(db.logs, nd, id) {
      assert nd in DeploysAfter(db, id);
    }
    if HistoryAfter(db, id) != {} {
      var nx :| nx in HistoryAfter(db, id);
    }
    if SuccessesAfter(db, id) != {} {
      var n :| n in SuccessesAfter(db, id);
      assert n in HistoryAfter(db, id);
    }
    if DeploysAfter(db, id) != {} {
      var n :| n in DeploysAfter(db, id);
      assert n in HistoryAfter(db, id);
    }
  }

  // ----- Deleting deletable logs makes no other log deletable or kept -----

  function Without(db: Db, ids: set<Text>): Db {
    db.(logs := db.logs - ids)
  }

  /** The newest log of a nonempty set. */
  lemma NewestOf(logs: map<Text, Log>, ids: set<Text>) returns (g: Text)
    requires ids != {} && ids <= logs.Keys
    ensures g in ids && forall x :: x in ids && x != g ==> Less(KeyOf(logs, x), KeyOf(logs, g))
  {
    var keys := set x | x in ids :: KeyOf(logs, x);
    var any :| any in ids;
    assert KeyOf(logs, any) in keys;
    g := Greatest(keys).id;
    forall x | x in ids && x != g ensures Less(KeyOf(logs, x), KeyOf(logs, g)) {
      assert KeyOf(logs, x) in keys;
    }
  }

  /** When a newer deploy or rollback log exists, a kept one exists. */
  lemma KeptHistoryWitness(db: Db, id: Text) returns (g: Text)
    requires id in db.logs && db.logs[id].instance in db.instances && HistoryAfter(db, id) != {}
    ensures g in HistoryAfter(db, id) && Protected(db, g)
  {
    g := NewestOf(db.logs, HistoryAfter(db, id));
    forall x | x in db.logs && NewerHistory(db.logs, x, g) ensures false {
      LessTransitive(KeyOf(db.logs, id), KeyOf(db.logs, g), KeyOf(db.logs, x));
      assert x in HistoryAfter(db, id);
      LessTrichotomy(KeyOf(db.logs, x), KeyOf(db.logs, g));
    }
  }

  lemma KeptDeployWitness(db: Db, id: Text) returns (g: Text)
    requires id in db.logs && db.logs[id].instance in db.instances && DeploysAfter(db, id) != {}
    ensures g in DeploysAfter(db, id) && Protected(db, g)
  {
    g := NewestOf(db.logs, DeploysAfter(db, id));
    forall x | x in db.logs && NewerDeploy(db.logs, x, g) ensures false {
      LessTransitive(KeyOf(db.logs, id), KeyOf(db.logs, g), KeyOf(db.logs, x));
      assert x in DeploysAfter(db, id);
      LessTrichotomy(KeyOf(db.logs, x), KeyOf(db.logs, g));
    }
  }

  lemma KeptSuccessWitnesses(db: Db, id: Text) returns (g1: Text, g2: Text)
    requires id in db.logs && db.logs[id].instance in db.instances && |SuccessesAfter(db, id)| >= 2
    ensures g1 in SuccessesAfter(db, id) && g2 in SuccessesAfter(db, id) && NewerSuccess(db.logs, g1, g2)
    ensures Protected(db, g1) && Protected(db, g2)
  {
    var s := SuccessesAfter(db, id);
    g1 := NewestOf(db.logs, s);
    var rest := s - {g1};
    assert rest != {} by { assert |rest| == |s| - 1; }
    g2 := NewestOf(db.logs, rest);
    forall x | x in db.logs && NewerSuccess(db.logs, x, g1) ensures false {
      LessTransitive(KeyOf(db.logs, id), KeyOf(db.logs, g1), KeyOf(db.logs, x));
      assert x in s;
      LessTrichotomy(KeyOf(db.logs, x), KeyOf(db.logs, g1));
    }
    assert SuccessesAfter(db, g1) == {};
    forall x | x in db.logs && NewerSuccess(db.logs, x, g2) ensures x == g1 {
      LessTransitive(KeyOf(db.logs, id), KeyOf(db.logs, g2), KeyOf(db.logs, x));
      assert x in s;
      LessTrichotomy(KeyOf(db.logs, x), KeyOf(db.logs, g2));
    }
    assert SuccessesAfter(db, g2) <= {g1};
    SubsetIsSmaller(SuccessesAfter(db, g2), {g1});
  }

  /** The comment in the code, proved: removing deletable logs takes no reason
      away from another deletable log, because the reasons can always be found
      among the kept logs. */
  lemma DeletableSurvivesRetention(db: Db, gone: set<Text>, id: Text)
    requires forall x :: x in gone && x in db.logs ==> Deletable(db, x)
    requires id in db.logs && id !in gone && Deletable(db, id)
    ensures Deletable(Without(db, gone), id)
  {
    var l := db.logs[id];
    if l.instance in db.instances && IsHistory(l) {
      KeepRuleMeansTheKeepList(db, id);
      var nx := KeptHistoryWitness(db, id);
      KeepRuleMeansTheKeepList(db, nx);
      assert nx in Without(db, gone).logs && NewerHistory(Without(db, gone).logs, nx, id);
      if l.status == Success {
        if l.action == Deploy {
          var nd := KeptDeployWitness(db, id);
          KeepRuleMeansTheKeepList(db, nd);
          assert nd in Without(db, gone).logs && NewerDeploy(Without(db, gone).logs, nd, id);
        }
        var g1, g2 := KeptSuccessWitnesses(db, id);
        KeepRuleMeansTheKeepList(db, g1);
        KeepRuleMeansTheKeepList(db, g2);
        assert g2 in Without(db, gone).logs && NewerSuccess(Without(db, gone).logs, g2, id);
        assert g1 in Without(db, gone).logs && NewerSuccess(Without(db, gone).logs, g1, g2);
      }
    }
  }

  /** Other writers only add reasons: logs are inserted or finished, a finished
      log keeps its status, identity columns never change and an instance that
      logs refer to does not appear again. */
  ghost predicate Grows(db: Db, next: Db) {
    && (forall id :: id in db.logs ==>
          && id in next.logs
          && next.logs[id].instance == db.logs[id].instance
          && next.logs[id].action == db.logs[id].action
          && next.logs[id].startedAt == db.logs[id].startedAt
          && (IsFinished(db.logs[id]) ==> next.logs[id].status == db.logs[id].status)
          && (db.logs[id].instance !in db.instances ==> db.logs[id].instance !in next.instances))
  }

  lemma DeletableSurvivesGrowth(db: Db, next: Db, id: Text)
    requires Grows(db, next) && id in db.logs && IsFinished(db.logs[id]) && Deletable(db, id)
    ensures Deletable(next, id)
  {
    forall x, y | x in db.logs && y in db.logs
      ensures Newer(db.logs, x, y) ==> Newer(next.logs, x, y)
    {}
    forall x, y | x in db.logs && y in db.logs
      ensures NewerHistory(db.logs, x, y) ==> NewerHistory(next.logs, x, y)
      ensures NewerSuccess(db.logs, x, y) ==> NewerSuccess(next.logs, x, y)
      ensures NewerDeploy(db.logs, x, y) ==> NewerDeploy(next.logs, x, y)
    {}
  }

  // ----- The batched delete is confluent -----

  /** The rows that one statement with this cutoff would select. */
  function Victims(db: Db, cutoff: int): set<Text> {
    set id | id in db.logs && IsFinished(db.logs[id]) && db.logs[id].startedAt < cutoff && Deletable(db, id)
  }

  /** The rows of ids that the delete statement removes: a row that stopped
      matching stays. */
  function DeleteScope(db: Db, cutoff: int, ids: set<Text>): set<Text> {
    set id | id in db.logs && id in ids && IsFinished(db.logs[id]) && db.logs[id].startedAt < cutoff
  }

  lemma DeleteScopeOfSelected(db: Db, cutoff: int, ids: set<Text>)
    requires ids <= Victims(db, cutoff)
    ensures DeleteScope(db, cutoff, ids) == ids && ids <= db.logs.Keys
  {}

  lemma BatchKeepsTheRest(db: Db, cutoff: int, batch: set<Text>)
    requires batch <= Victims(db, cutoff)
    ensures Victims(Without(db, batch), cutoff) == Victims(db, cutoff) - batch
  {
    var next := Without(db, batch);
    forall id | id in Victims(db, cutoff) - batch ensures id in Victims(next, cutoff) {
      DeletableSurvivesRetention(db, batch, id);
    }
    forall id | id in Victims(next, cutoff) ensures id in Victims(db, cutoff) - batch {
      assert Grows(next, db);
      DeletableSurvivesGrowth(next, db, id);
    }
  }

  /** The rows of a one-shot delete, without the SQL: finished, old and on no
      keep list. */
  lemma VictimsAreTheOldUnprotected(db: Db, cutoff: int)
    ensures forall id :: id in Victims(db, cutoff) <==>
      && id in db.logs
      && (db.logs[id].status == Success || db.logs[id].status == Error || db.logs[id].status == Partial)
      && db.logs[id].startedAt < cutoff
      && !Protected(db, id)
  {
    forall id | id in db.logs ensures Deletable(db, id) <==> !Protected(db, id) {
      KeepRuleMeansTheKeepList(db, id);
    }
  }

  class RetentionRepository {
    var logs: map<Text, Log>
    var instances: set<Text>

    ghost function View(): Db
      reads this
    {
      Db(logs, instances)
    }

    constructor (logs: map<Text, Log>, instances: set<Text>)
      ensures View() == Db(logs, instances)
    {
      this.logs, this.instances := logs, instances;
    }

    /** LIMIT without ORDER BY: any limit rows. The contract fixes only how
        many, so callers are proved for every choice. */
    static method AnyRows(rows: set<Text>, limit: nat) returns (ids: set<Text>)
      ensures ids <= rows && |ids| == if |rows| < limit then |rows| else limit
    {
      ids := {};
      var left := rows;
      while |ids| < limit && left != {}
        invariant ids <= rows && left == rows - ids && |ids| <= limit
        invariant |ids| + |left| == |rows|
        decreases |left|
      {
        var x :| x in left;
        ids := ids + {x};
        left := left - {x};
      }
    }

    /** SELECT id ... WHERE finished AND old AND deletable LIMIT limit. */
    method SelectIds(cutoff: int, limit: nat) returns (ids: set<Text>)
      ensures ids <= Victims(View(), cutoff)
      ensures |ids| == if |Victims(View(), cutoff)| < limit then |Victims(View(), cutoff)| else limit
      ensures forall id :: id in ids ==>
        && id in logs
        && (logs[id].status == Success || logs[id].status == Error || logs[id].status == Partial)
        && logs[id].startedAt < cutoff
        && !Protected(View(), id)
    {
      VictimsAreTheOldUnprotected(View(), cutoff);
      ids := AnyRows(Victims(Db(logs, instances), cutoff), limit);
    }

    /** DELETE ... WHERE finished AND old AND id IN ids. ScopeSparesTheKept says
        what that means for ids from an earlier table. */
    method DeleteIds(cutoff: int, ids: set<Text>) returns (affected: nat)
      modifies this`logs
      ensures View() == Without(old(View()), DeleteScope(old(View()), cutoff, ids))
      ensures affected == |DeleteScope(old(View()), cutoff, ids)| == |old(logs)| - |logs|
    {
      var doomed := DeleteScope(Db(logs, instances), cutoff, ids);
      affected := |doomed|;
      assert logs.Keys == (logs - doomed).Keys + doomed;
      logs := logs - doomed;
    }

    /** With a fixed cutoff and no other writer, for every batch size and every
        choice of rows: exactly the finished and old logs that are on no keep
        list of the first table go, as in a single one-shot delete, and the total
        is their number. */
    method DeleteDeploymentLogsOlderThan(cutoff: int, requestedSize: int) returns (total: nat)
      modifies this`logs
      ensures forall id :: id in old(logs) ==>
        (id !in logs <==>
           && (old(logs)[id].status == Success || old(logs)[id].status == Error || old(logs)[id].status == Partial)
           && old(logs)[id].startedAt < cutoff
           && !Protected(old(View()), id))
      ensures forall id :: id in logs ==> id in old(logs) && logs[id] == old(logs)[id]
      ensures total == |old(logs)| - |logs|
      ensures View() == Without(old(View()), Victims(old(View()), cutoff))
    {
      total := DeleteInBatches(cutoff, requestedSize);
      VictimsAreTheOldUnprotected(old(View()), cutoff);
      assert old(logs).Keys == logs.Keys + Victims(old(View()), cutoff);
    }

    /** The loop of deleteInBatches. */
    method DeleteInBatches(cutoff: int, requestedSize: int) returns (total: nat)
      modifies this`logs
      ensures View() == Without(old(View()), Victims(old(View()), cutoff))
      ensures total == |Victims(old(View()), cutoff)|
    {
      var batchSize: nat := if requestedSize <= 0 then 100 else requestedSize;
      ghost var start := View();
      ghost var gone: set<Text> := {};
      NothingGone(start, cutoff);
      total := 0;
      while true
        invariant Progress(start, cutoff, gone) && View() == Without(start, gone)
        invariant total == |gone|
        decreases |Victims(start, cutoff)| - |gone|
      {
        var selected, affected;
        selected, affected, gone := DeleteBatch(cutoff, batchSize, start, gone);
        if selected == 0 {
          return;
        }
        total := total + affected;
        if selected < batchSize {
          return;
        }
      }
    }

    /** One round of the loop. start is the first table, gone what was removed
        so far, removed what is removed afterwards. */
    method DeleteBatch(cutoff: int, batchSize: nat, ghost start: Db, ghost gone: set<Text>)
      returns (selected: nat, affected: nat, ghost removed: set<Text>)
      requires batchSize > 0 && Progress(start, cutoff, gone) && View() == Without(start, gone)
      modifies this`logs
      ensures Progress(start, cutoff, removed) && View() == Without(start, removed)
      ensures selected == affected && |removed| == |gone| + affected <= |Victims(start, cutoff)|
      ensures selected < batchSize ==> removed == Victims(start, cutoff)
    {
      var ids := SelectIds(cutoff, batchSize);
      BatchAdvances(start, cutoff, gone, ids, batchSize);
      selected, affected, removed := |ids|, 0, gone + ids;
      if ids == {} {
        assert removed == gone;
        return;
      }
      affected := DeleteIds(cutoff, ids);
    }
  }

  lemma NothingGone(start: Db, cutoff: int)
    ensures Without(start, {}) == start && Progress(start, cutoff, {})
  {
    assert start.logs - {} == start.logs;
  }

  /** The delete statement with ids from an earlier table: when the rows among
      them are deletable, no kept log goes and the other selectable rows stay
      selectable. */
  lemma ScopeSparesTheKept(db: Db, cutoff: int, ids: set<Text>)
    requires forall id :: id in ids && id in db.logs ==> Deletable(db, id)
    ensures var scope := DeleteScope(db, cutoff, ids);
      && (forall id :: id in db.logs && Protected(db, id) ==> id !in scope)
      && Victims(Without(db, scope), cutoff) == Victims(db, cutoff) - ids
  {
    var scope := DeleteScope(db, cutoff, ids);
    forall id | id in db.logs && Protected(db, id) ensures id !in scope {
      KeepRuleMeansTheKeepList(db, id);
    }
    BatchKeepsTheRest(db, cutoff, scope);
    assert Victims(db, cutoff) - scope == Victims(db, cutoff) - ids;
  }

  /** gone was removed so far, and the rest of the victims is still to go. */
  ghost predicate Progress(start: Db, cutoff: int, gone: set<Text>) {
    gone <= Victims(start, cutoff) && Victims(Without(start, gone), cutoff) == Victims(start, cutoff) - gone
  }

  /** A batch of up to limit rows. */
  lemma BatchAdvances(start: Db, cutoff: int, gone: set<Text>, ids: set<Text>, limit: nat)
    requires Progress(start, cutoff, gone) && ids <= Victims(Without(start, gone), cutoff)
    requires limit > 0
    requires |ids| == if |Victims(Without(start, gone), cutoff)| < limit
                      then |Victims(Without(start, gone), cutoff)| else limit
    ensures DeleteScope(Without(start, gone), cutoff, ids) == ids
    ensures Progress(start, cutoff, gone + ids) && Without(Without(start, gone), ids) == Without(start, gone + ids)
    ensures |gone + ids| == |gone| + |ids| <= |Victims(start, cutoff)|
    ensures |ids| < limit ==> gone + ids == Victims(start, cutoff)
  {
    DeleteScopeOfSelected(Without(start, gone), cutoff, ids);
    BatchKeepsTheRest(Without(start, gone), cutoff, ids);
    WithoutBoth(start, gone, ids);
    RemainderShrinks(Victims(start, cutoff), gone, ids);
  }

  lemma WithoutBoth(db: Db, a: set<Text>, b: set<Text>)
    ensures Without(Without(db, a), b) == Without(db, a + b)
  {
    assert db.logs - a - b == db.logs - (a + b);
  }

  lemma RemainderShrinks<T>(all: set<T>, gone: set<T>, ids: set<T>)
    requires gone <= all && ids <= all - gone
    ensures gone + ids <= all && all - gone - ids == all - (gone + ids)
    ensures |gone + ids| == |gone| + |ids| <= |all|
    ensures |ids| == |all - gone| ==> gone + ids == all
  {
    assert all - gone - ids == all - (gone + ids);
    SubsetIsSmaller(gone + ids, all);
    if |ids| == |all - gone| {
      SameSizeSubset(ids, all - gone);
    }
  }

  lemma SameSizeSubset<T>(a: set<T>, b: set<T>)
    requires a <= b && |a| == |b|
    ensures a == b
  {
    assert |b - a| == |b| - |a|;
  }

  // ----- Safety next to other writers -----

  /** A retention batch between its select and its delete. */
  datatype Batch = Batch(age: nat, ids: set<Text>)

  datatype State = State(db: Db, issued: set<Text>, now: int, pending: map<nat, Batch>)

  datatype Step =
    | InsertLog(id: Text, row: Log)
    | WriteLog(id: Text, row: Log)
    | AssignUser(id: Text, user: Text)
    | InsertInstance(instance: Text)
    | DropInstance(instance: Text)
    | Tick(elapsed: nat)
    | SelectBatch(run: nat, age: nat, ids: set<Text>)
    | DeleteBatch(run: nat)

  /** A step whose guard fails does nothing. Guards: log ids are fresh; a write
      needs a running log and keeps its identity columns; instance ids are not
      reused; a select returns only rows of its condition. */
  function Apply(s: State, step: Step): State {
    match step
    case InsertLog(id, row) =>
      if id in s.issued then s
      else s.(db := s.db.(logs := s.db.logs[id := row]), issued := s.issued + {id})
    case WriteLog(id, row) =>
      if id in s.db.logs && s.db.logs[id].status == Running
         && row.instance == s.db.logs[id].instance && row.action == s.db.logs[id].action
         && row.startedAt == s.db.logs[id].startedAt
      then s.(db := s.db.(logs := s.db.logs[id := row])) else s
    case AssignUser(id, user) =>
      // The user backfill; it also writes finished logs.
      if id in s.db.logs then s.(db := s.db.(logs := s.db.logs[id := s.db.logs[id].(userId := user)])) else s
    case InsertInstance(i) =>
      if exists id :: id in s.db.logs && s.db.logs[id].instance == i then s
      else s.(db := s.db.(instances := s.db.instances + {i}))
    case DropInstance(i) => s.(db := s.db.(instances := s.db.instances - {i}))
    case Tick(n) => s.(now := s.now + n)
    case SelectBatch(run, age, ids) =>
      if ids <= Victims(s.db, s.now - age) then s.(pending := s.pending[run := Batch(age, ids)]) else s
    case DeleteBatch(run) =>
      if run !in s.pending then s
      else s.(db := Without(s.db, Doomed(s, run)), pending := s.pending - {run})
  }

  /** The delete scope: finished, still old enough, selected before. */
  function Doomed(s: State, run: nat): set<Text>
    requires run in s.pending
  {
    DeleteScope(s.db, s.now - s.pending[run].age, s.pending[run].ids)
  }

  /** The delete of a selected batch removes exactly its rows that are still
      finished and old. */
  lemma DeleteBatchTakesEffect(s: State, run: nat, id: Text)
    requires id in s.db.logs && run in s.pending
    ensures var next := Apply(s, DeleteBatch(run)).db.logs;
      && (id !in next <==>
            && id in s.pending[run].ids && s.db.logs[id].startedAt < s.now - s.pending[run].age
            && (s.db.logs[id].status == Success || s.db.logs[id].status == Error || s.db.logs[id].status == Partial))
      && (id in next ==> next[id] == s.db.logs[id])
  {}

  /** A select and its delete, with nothing in between, remove any chosen rows
      that are finished, old and on no keep list. */
  lemma SelectThenDelete(s: State, run: nat, age: nat, ids: set<Text>)
    requires forall id :: id in ids ==>
      && id in s.db.logs && s.db.logs[id].status != Running && s.db.logs[id].startedAt < s.now - age
      && !Protected(s.db, id)
    ensures Apply(Apply(s, SelectBatch(run, age, ids)), DeleteBatch(run)).db.logs == s.db.logs - ids
  {
    VictimsAreTheOldUnprotected(s.db, s.now - age);
    assert ids <= Victims(s.db, s.now - age);
    var mid := Apply(s, SelectBatch(run, age, ids));
    assert Doomed(mid, run) == ids;
  }

  /** What the steps of the other writers do. */
  lemma OtherStepsTakeEffect(s: State, id: Text, row: Log, user: Text, instance: Text, elapsed: nat)
    ensures id !in s.issued ==>
      id in Apply(s, InsertLog(id, row)).db.logs && Apply(s, InsertLog(id, row)).db.logs[id] == row
    ensures id in s.db.logs && s.db.logs[id].status == Running ==>
      var finished := s.db.logs[id].(status := row.status, completedAt := row.completedAt);
      id in Apply(s, WriteLog(id, finished)).db.logs && Apply(s, WriteLog(id, finished)).db.logs[id] == finished
    ensures id in s.db.logs ==> Apply(s, AssignUser(id, user)).db.logs[id] == s.db.logs[id].(userId := user)
    ensures instance !in Apply(s, DropInstance(instance)).db.instances
    ensures (forall x :: x in s.db.logs ==> s.db.logs[x].instance != instance) ==>
      instance in Apply(s, InsertInstance(instance)).db.instances
    ensures Apply(s, Tick(elapsed)).now == s.now + elapsed
  {}

  ghost predicate Invariant(s: State) {
    && s.db.logs.Keys <= s.issued
    && (forall run, id :: run in s.pending && id in s.pending[run].ids ==>
          && id in s.issued
          && (id in s.db.logs ==> IsFinished(s.db.logs[id]) && Deletable(s.db, id)))
  }

  lemma GrowthKeepsInvariant(s: State, next: State)
    requires Invariant(s) && Grows(s.db, next.db)
    requires next.pending == s.pending && s.issued <= next.issued && next.db.logs.Keys <= next.issued
    requires next.db.logs.Keys * s.issued <= s.db.logs.Keys
    ensures Invariant(next)
  {
    forall run, id | run in next.pending && id in next.pending[run].ids && id in next.db.logs
      ensures IsFinished(next.db.logs[id]) && Deletable(next.db, id)
    {
      DeletableSurvivesGrowth(s.db, next.db, id);
    }
  }

  lemma DeleteKeepsInvariant(s: State, run: nat)
    requires Invariant(s) && run in s.pending
    ensures Invariant(Apply(s, DeleteBatch(run)))
  {
    var next := Apply(s, DeleteBatch(run));
    forall other, id | other in next.pending && id in next.pending[other].ids && id in next.db.logs
      ensures IsFinished(next.db.logs[id]) && Deletable(next.db, id)
    {
      DeletableSurvivesRetention(s.db, Doomed(s, run), id);
    }
  }

  lemma OtherWritersGrow(s: State, step: Step)
    requires Invariant(s) && !step.DeleteBatch? && !step.SelectBatch?
    ensures var next := Apply(s, step);
      && Grows(s.db, next.db) && next.pending == s.pending
      && s.issued <= next.issued && next.db.logs.Keys <= next.issued
      && next.db.logs.Keys * s.issued <= s.db.logs.Keys
  {
    match step {
      case InsertLog(id, row) =>
        assert id !in s.issued ==> id !in s.db.logs;
      case WriteLog(id, row) =>
        assert Apply(s, step).db.instances == s.db.instances;
      case AssignUser(id, user) =>
        assert Apply(s, step).db.instances == s.db.instances;
      case InsertInstance(i) =>
        assert Apply(s, step).db.logs == s.db.logs;
      case DropInstance(i) =>
        assert Apply(s, step).db.logs == s.db.logs;
      case Tick(_) =>
        assert Apply(s, step).db == s.db;
    }
  }

  lemma StepKeepsInvariant(s: State, step: Step)
    requires Invariant(s)
    ensures Invariant(Apply(s, step))
  {
    if step.DeleteBatch? {
      if step.run in s.pending { DeleteKeepsInvariant(s, step.run); }
    } else if !step.SelectBatch? {
      OtherWritersGrow(s, step);
      GrowthKeepsInvariant(s, Apply(s, step));
    }
  }

  /** Every log that a step of the run removes is finished and, at that
      instant, on no keep list. */
  ghost predicate NeverDeletesKept(s: State, steps: seq<Step>)
    decreases |steps|
  {
    steps != [] ==>
      && (forall id :: id in s.db.logs && id !in Apply(s, steps[0]).db.logs ==>
            IsFinished(s.db.logs[id]) && !Protected(s.db, id))
      && NeverDeletesKept(Apply(s, steps[0]), steps[1..])
  }

  /** In every interleaving of any number of retention runs with inserts,
      writes and instance changes, no delete removes a running or kept log. */
  lemma {:induction false} RetentionIsSafe(s: State, steps: seq<Step>)
    requires Invariant(s)
    ensures NeverDeletesKept(s, steps)
    decreases |steps|
  {
    if steps != [] {
      forall id | id in s.db.logs && id !in Apply(s, steps[0]).db.logs
        ensures IsFinished(s.db.logs[id]) && !Protected(s.db, id)
      {
        KeepRuleMeansTheKeepList(s.db, id);
      }
      StepKeepsInvariant(s, steps[0]);
      RetentionIsSafe(Apply(s, steps[0]), steps[1..]);
    }
  }

  // ----- History highlights -----

  datatype Highlights = Highlights(running: Option<Text>, current: Option<Text>, latestFailure: Option<Text>)

  ghost predicate IsNewestIn(db: Db, ids: set<Text>, g: Text)
    requires ids <= db.logs.Keys
  {
    g in ids && forall x :: x in ids && x != g ==> Less(KeyOf(db.logs, x), KeyOf(db.logs, g))
  }

  lemma NewestExists(db: Db, ids: set<Text>)
    requires ids <= db.logs.Keys && ids != {}
    ensures exists g :: IsNewestIn(db, ids, g)
  {
    var g := NewestOf(db.logs, ids);
    assert IsNewestIn(db, ids, g);
  }

  /** newestSummaryRow: ORDER BY started_at DESC, id DESC LIMIT 1. */
  ghost function NewestRow(db: Db, ids: set<Text>): (r: Option<Text>)
    requires ids <= db.logs.Keys
    ensures ids == {} ==> r == None
    ensures ids != {} ==> r.Some? && IsNewestIn(db, ids, r.value)
  {
    if ids == {} then None
    else
      NewestExists(db, ids);
      var g :| IsNewestIn(db, ids, g);
      Some(g)
  }

  ghost function GoodLogs(db: Db, instance: Text): set<Text> {
    set id | id in db.logs && db.logs[id].instance == instance && IsHistory(db.logs[id])
      && (db.logs[id].status == Success || db.logs[id].status == Partial)
  }

  ghost function LastGood(db: Db, instance: Text): Option<Text> {
    NewestRow(db, GoodLogs(db, instance))
  }

  /** The target log of a rollback, if it is a log of the instance. */
  function TargetLogs(db: Db, instance: Text, rollback: Text): set<Text>
    requires rollback in db.logs
  {
    set id | id in db.logs && id == db.logs[rollback].targetLogId && db.logs[id].instance == instance
  }

  function RunningLogs(db: Db, instance: Text): set<Text> {
    set id | id in db.logs && db.logs[id].instance == instance && db.logs[id].status == Running
  }

  /** The failed logs that started after the last good log, if there is one. */
  function FailedLogs(db: Db, instance: Text, lastGood: Option<Text>): set<Text>
    requires lastGood.Some? ==> lastGood.value in db.logs
  {
    set id | id in db.logs && db.logs[id].instance == instance && db.logs[id].status == Error
      && (lastGood.Some? ==> db.logs[id].startedAt > db.logs[lastGood.value].startedAt)
  }

  ghost function HistoryHighlights(db: Db, instance: Text): Highlights {
    var lastGood := LastGood(db, instance);
    Highlights(
      NewestRow(db, RunningLogs(db, instance)),
      if lastGood.None? then None
      else if db.logs[lastGood.value].action == Deploy then lastGood
      else if db.logs[lastGood.value].targetLogId == [] then None
      else NewestRow(db, TargetLogs(db, instance, lastGood.value)),
      NewestRow(db, FailedLogs(db, instance, lastGood)))
  }

  /** Every highlight is a log of the instance: a running one, the deploy or
      rollback target that set the current state, and a failure that started
      after it. */
  lemma HighlightsBelongTogether(db: Db, instance: Text)
    ensures var h := HistoryHighlights(db, instance);
      var good := LastGood(db, instance);
      && (h.running.Some? ==>
            && h.running.value in db.logs && db.logs[h.running.value].instance == instance
            && db.logs[h.running.value].status == Running)
      && (h.current.Some? ==>
            h.current.value in db.logs && db.logs[h.current.value].instance == instance && good.Some?)
      && (h.latestFailure.Some? ==>
            && h.latestFailure.value in db.logs && db.logs[h.latestFailure.value].instance == instance
            && db.logs[h.latestFailure.value].status == Error
            && (good.Some? ==> db.logs[h.latestFailure.value].startedAt > db.logs[good.value].startedAt))
      && (h.current.None? ==> good.Some? ==>
            db.logs[good.value].action == Rollback
            && forall id :: id in db.logs && id == db.logs[good.value].targetLogId ==>
                 id == [] || db.logs[id].instance != instance)
  {
    var good := LastGood(db, instance);
    if good.Some? && db.logs[good.value].action == Rollback {
      assert forall id :: id in TargetLogs(db, instance, good.value) <==>
        id in db.logs && id == db.logs[good.value].targetLogId && db.logs[id].instance == instance;
    }
  }

  ghost predicate IsLatest(db: Db, r: Option<Text>, id: Text) {
    id in db.logs ==>
      && r.Some? && r.value in db.logs
      && (id == r.value || Less(Key(db.logs[id].startedAt, id), Key(db.logs[r.value].startedAt, r.value)))
  }

  /** The last good log is the newest successful or partial deploy or rollback
      log, the running one the newest running log and the failure the newest
      failed log after the last good one; each is there when such a log is. The
      current deploy is the last good deploy, or the target of the rollback. */
  lemma HighlightsAreTheLatest(db: Db, instance: Text)
    ensures var h, good := HistoryHighlights(db, instance), LastGood(db, instance);
      // The last good log.
      && (good.Some? ==>
            && good.value in db.logs && db.logs[good.value].instance == instance
            && (db.logs[good.value].action == Deploy || db.logs[good.value].action == Rollback)
            && (db.logs[good.value].status == Success || db.logs[good.value].status == Partial))
      && (forall id :: id in db.logs && db.logs[id].instance == instance ==>
            (db.logs[id].action == Deploy || db.logs[id].action == Rollback) ==>
            (db.logs[id].status == Success || db.logs[id].status == Partial) ==>
            IsLatest(db, good, id))
      // The running log and the latest failure.
      && (forall id :: id in db.logs && db.logs[id].instance == instance ==>
            db.logs[id].status == Running ==>
            IsLatest(db, h.running, id))
      && (forall id :: id in db.logs && db.logs[id].instance == instance ==>
            db.logs[id].status == Error ==>
            (good.Some? ==> db.logs[id].startedAt > db.logs[good.value].startedAt) ==>
            IsLatest(db, h.latestFailure, id))
      // The current deploy.
      && (h.current.Some? ==> good.Some?)
      && (good.Some? ==>
            var g := db.logs[good.value];
            if g.action == Deploy then h.current == good
            else if g.targetLogId != [] && g.targetLogId in db.logs && db.logs[g.targetLogId].instance == instance
            then h.current == Some(g.targetLogId)
            else h.current == None)
  {
    var good := LastGood(db, instance);
    assert forall id :: id in GoodLogs(db, instance) ==> IsLatest(db, good, id);
    assert forall id :: id in RunningLogs(db, instance) ==> IsLatest(db, HistoryHighlights(db, instance).running, id);
    assert forall id :: id in FailedLogs(db, instance, good) ==>
      IsLatest(db, HistoryHighlights(db, instance).latestFailure, id);
    if good.Some? && db.logs[good.value].action == Rollback {
      TargetIsFound(db, instance, good.value);
    }
  }

  lemma TargetIsFound(db: Db, instance: Text, rollback: Text)
    requires rollback in db.logs
    ensures var target := db.logs[rollback].targetLogId;
      NewestRow(db, TargetLogs(db, instance, rollback)) ==
        if target in db.logs && db.logs[target].instance == instance then Some(target) else None
  {
    var target := db.logs[rollback].targetLogId;
    assert forall id :: id in TargetLogs(db, instance, rollback) ==> id == target;
    if target in db.logs && db.logs[target].instance == instance {
      assert target in TargetLogs(db, instance, rollback);
    }
  }

  lemma NewestIsUnique(db: Db, ids: set<Text>, g: Text)
    requires ids <= db.logs.Keys && IsNewestIn(db, ids, g)
    ensures NewestRow(db, ids) == Some(g)
  {
    LessTrichotomy(KeyOf(db.logs, g), KeyOf(db.logs, NewestRow(db, ids).value));
  }

  /** Exactly when retention may take the log that sets the current deploy: a
      partial one that a later deploy or rollback log follows. */
  lemma LastGoodMayGoOnlyWhenPartial(db: Db, instance: Text, cutoff: int)
    requires instance in db.instances && LastGood(db, instance).Some?
    ensures var g := LastGood(db, instance).value;
      g in Victims(db, cutoff) <==>
        db.logs[g].status == Partial && db.logs[g].startedAt < cutoff
        && exists nx :: nx in db.logs && NewerHistory(db.logs, nx, g)
  {
    var g := LastGood(db, instance).value;
    if db.logs[g].status == Success {
      forall n | n in db.logs && NewerSuccess(db.logs, n, g) ensures false {
        assert n in GoodLogs(db, instance);
        LessTrichotomy(KeyOf(db.logs, n), KeyOf(db.logs, g));
      }
    }
  }

  /** A partial deploy at time 1 and a failed one at time 2. */
  function PartialThenFailed(instance: Text, a: Text, b: Text): Db {
    var row := Log(instance, Deploy, Partial, 1, None, "", "", "", [], [], [], None);
    Db(map[a := row, b := row.(status := Error, startedAt := 2)], {instance})
  }

  /** The input: the only log that says what runs is partial, and retention
      takes it. */
  lemma PartialLastGoodIsTaken(instance: Text, a: Text, b: Text)
    requires a != b
    ensures var db := PartialThenFailed(instance, a, b);
      && LastGood(db, instance) == Some(a) && a in Victims(db, 3)
      && HistoryHighlights(db, instance).current == Some(a)
      && HistoryHighlights(Without(db, {a}), instance).current == None
  {
    var db := PartialThenFailed(instance, a, b);
    assert GoodLogs(db, instance) == {a};
    assert IsNewestIn(db, GoodLogs(db, instance), a);
    NewestIsUnique(db, GoodLogs(db, instance), a);
    assert NewerHistory(db.logs, b, a);
    LastGoodMayGoOnlyWhenPartial(db, instance, 3);
    assert GoodLogs(Without(db, {a}), instance) == {};
  }

  /** A successful last good log of an existing instance is on the keep list. */
  lemma SuccessfulLastGoodIsKept(db: Db, instance: Text, g: Text)
    requires instance in db.instances && LastGood(db, instance) == Some(g) && db.logs[g].status == Success
    ensures !Deletable(db, g)
  {
    forall n | n in db.logs && NewerSuccess(db.logs, n, g) ensures false {
      assert n in GoodLogs(db, instance);
      LessTrichotomy(KeyOf(db.logs, n), KeyOf(db.logs, g));
    }
  }

  /** The last good log of the instance, and the current deploy when it is a
      deploy, are the same in both tables. */
  ghost predicate SameCurrent(db: Db, next: Db, instance: Text, g: Text)
    requires g in db.logs
  {
    && g in next.logs && next.logs[g] == db.logs[g] && LastGood(next, instance) == LastGood(db, instance) == Some(g)
    && (db.logs[g].action == Deploy ==>
          HistoryHighlights(next, instance).current == HistoryHighlights(db, instance).current == Some(g))
  }

  /** The delete of a batch, long after its select and whatever other writers
      did in between, keeps a successful last good log of every existing
      instance. */
  lemma DeleteKeepsCurrent(s: State, run: nat, instance: Text, g: Text)
    requires Invariant(s) && instance in s.db.instances
    requires LastGood(s.db, instance) == Some(g) && s.db.logs[g].status == Success
    ensures SameCurrent(s.db, Apply(s, DeleteBatch(run)).db, instance, g)
  {
    var next := Apply(s, DeleteBatch(run)).db;
    SuccessfulLastGoodIsKept(s.db, instance, g);
    assert g in next.logs;
    assert GoodLogs(next, instance) <= GoodLogs(s.db, instance);
    assert IsNewestIn(next, GoodLogs(next, instance), g);
    NewestIsUnique(next, GoodLogs(next, instance), g);
  }

  /** Every delete of the run keeps the successful last good logs. */
  ghost predicate DeletesKeepCurrent(s: State, steps: seq<Step>)
    decreases |steps|
  {
    steps != [] ==>
      && (steps[0].DeleteBatch? ==>
            forall instance :: instance in s.db.instances ==>
              var good := LastGood(s.db, instance);
              good.Some? && s.db.logs[good.value].status == Success ==>
                SameCurrent(s.db, Apply(s, steps[0]).db, instance, good.value))
      && DeletesKeepCurrent(Apply(s, steps[0]), steps[1..])
  }

  lemma {:induction false} NoDeleteChangesCurrent(s: State, steps: seq<Step>)
    requires Invariant(s)
    ensures DeletesKeepCurrent(s, steps)
    decreases |steps|
  {
    if steps != [] {
      forall instance | steps[0].DeleteBatch? && instance in s.db.instances
                        && LastGood(s.db, instance).Some?
                        && s.db.logs[LastGood(s.db, instance).value].status == Success
        ensures SameCurrent(s.db, Apply(s, steps[0]).db, instance, LastGood(s.db, instance).value)
      {
        DeleteKeepsCurrent(s, steps[0].run, instance, LastGood(s.db, instance).value);
      }
      StepKeepsInvariant(s, steps[0]);
      NoDeleteChangesCurrent(Apply(s, steps[0]), steps[1..]);
    }
  }

  function RunAll(s: State, steps: seq<Step>): State
    decreases |steps|
  {
    if steps == [] then s else RunAll(Apply(s, steps[0]), steps[1..])
  }

  predicate IsRetention(step: Step) {
    step.SelectBatch? || step.DeleteBatch? || step.Tick?
  }

  /** Any number of interleaved retention runs with any ages keeps a successful
      last good log of an existing instance, and so the current deploy when it
      is a deploy. */
  lemma {:induction false} RetentionKeepsCurrent(s: State, steps: seq<Step>, instance: Text, g: Text)
    requires Invariant(s) && forall k :: 0 <= k < |steps| ==> IsRetention(steps[k])
    requires instance in s.db.instances && LastGood(s.db, instance) == Some(g) && s.db.logs[g].status == Success
    ensures SameCurrent(s.db, RunAll(s, steps).db, instance, g)
    decreases |steps|
  {
    if steps != [] {
      var next := Apply(s, steps[0]);
      assert IsRetention(steps[0]);
      if steps[0].DeleteBatch? { DeleteKeepsCurrent(s, steps[0].run, instance, g); }
      StepKeepsInvariant(s, steps[0]);
      RetentionKeepsCurrent(next, steps[1..], instance, g);
    }
  }
}
