/** Running deploy logs, their writers, the replica heartbeats and the
    recovery of interrupted operations. Every SQL statement (and the
    InterruptOperation transaction) is one atomic step; several backend
    processes take steps in any order. Database time is in milliseconds. */
module OperationLog {
  import opened Keys
  import opened Logs

  /** other stands for the columns that no modelled statement reads. */
  datatype Instance = Instance(
    status: string, updatedAt: int, errorMessage: string,
    postDeployHookUntil: Option<int>, deleteAfterClean: bool,
    expiresAt: Option<int>, expiryWarnedAt: Option<int>, other: string)

  /** One second: expiry times closer than this are the same. */
  const ExpiryTolerance := 1000

  predicate SameExpiry(stored: Option<int>, expiresAt: int) {
    stored.Some? && expiresAt - ExpiryTolerance < stored.value < expiresAt + ExpiryTolerance
  }

  /** issued holds every log id that was ever inserted: ids are UUIDs and are
      never used again. */
  datatype Db = Db(
    logs: map<Text, Log>, issued: set<Text>,
    instances: map<Text, Instance>,
    beats: map<Text, int>, now: int)

  ghost predicate Valid(db: Db) {
    db.logs.Keys <= db.issued
  }

  predicate IsRunning(db: Db, id: Text) {
    id in db.logs && db.logs[id].status == Running
  }

  // ----- The conditional writers of a running log -----

  /** The SET clause of Update, ExtendDeadline and UpdateRunningOutput. */
  datatype Write = SetRow(row: Log) | ExtendTo(deadline: int) | SetOutput(output: string)

  function Written(w: Write, l: Log): Log {
    match w
    case SetRow(row) => row
    case ExtendTo(d) => if l.deadlineAt.None? || l.deadlineAt.value < d then l.(deadlineAt := Some(d)) else l
    case SetOutput(o) => l.(output := o)
  }

  /** UPDATE ... WHERE id = ? AND status = 'running'. */
  function UpdateStatement(db: Db, id: Text, w: Write): Db {
    if IsRunning(db, id) then db.(logs := db.logs[id := Written(w, db.logs[id])]) else db
  }

  /** MySQL counts only the rows that the statement changed. */
  function RowsAffected(db: Db, id: Text, w: Write): nat {
    if IsRunning(db, id) && Written(w, db.logs[id]) != db.logs[id] then 1 else 0
  }

  // What the UPDATE does to the tables, column by column.

  /** Nothing but log id differs, and nothing at all when it is not running. */
  ghost predicate OnlyLogMayDiffer(db: Db, next: Db, id: Text) {
    && next.issued == db.issued && next.instances == db.instances && next.beats == db.beats && next.now == db.now
    && next.logs.Keys == db.logs.Keys
    && (forall x :: x in db.logs && (x != id || db.logs[x].status != Running) ==> next.logs[x] == db.logs[x])
  }

  /** A running row is replaced as a whole. */
  ghost predicate RowIsStored(db: Db, next: Db, id: Text, row: Log) {
    OnlyLogMayDiffer(db, next, id) && (id in db.logs && db.logs[id].status == Running ==> next.logs[id] == row)
  }

  /** The deadline of a running log becomes the later one of the old and the new
      deadline; no other column changes. */
  ghost predicate DeadlineIsExtended(db: Db, next: Db, id: Text, deadline: int) {
    && OnlyLogMayDiffer(db, next, id)
    && (id in db.logs && db.logs[id].status == Running ==>
          && next.logs[id] == db.logs[id].(deadlineAt := next.logs[id].deadlineAt)
          && next.logs[id].deadlineAt.Some? && next.logs[id].deadlineAt.value >= deadline
          && (db.logs[id].deadlineAt.Some? ==> next.logs[id].deadlineAt.value >= db.logs[id].deadlineAt.value)
          && (next.logs[id].deadlineAt == Some(deadline) || next.logs[id].deadlineAt == db.logs[id].deadlineAt))
  }

  /** The output of a running log is replaced; no other column changes. */
  ghost predicate OutputIsStored(db: Db, next: Db, id: Text, output: string) {
    && OnlyLogMayDiffer(db, next, id)
    && (id in db.logs && db.logs[id].status == Running ==>
          && next.logs[id].output == output
          && next.logs[id] == db.logs[id].(output := next.logs[id].output))
  }

  lemma UpdateDoesWhatItSays(db: Db, id: Text)
    ensures forall row :: RowIsStored(db, UpdateStatement(db, id, SetRow(row)), id, row)
    ensures forall d :: DeadlineIsExtended(db, UpdateStatement(db, id, ExtendTo(d)), id, d)
    ensures forall o :: OutputIsStored(db, UpdateStatement(db, id, SetOutput(o)), id, o)
  {}

  datatype Answer = Ok | NotRunning

  // ----- Interrupted operation recovery -----

  datatype InterruptRequest = InterruptRequest(
    logId: Text, instanceId: Text, replicaId: Text,
    logStartedAt: int, staleAfter: nat, now: int,
    instanceStatus: string, instanceUpdatedAt: int, message: string)

  datatype InterruptOutcome = Conflict | Result(logClosed: bool, instanceUpdated: bool)

  /** NOT EXISTS (a heartbeat of the replica within staleAfter). */
  predicate IsStale(db: Db, replica: Text, staleAfter: nat) {
    !(replica in db.beats && db.beats[replica] >= db.now - staleAfter)
  }

  predicate MayClose(db: Db, req: InterruptRequest) {
    && IsRunning(db, req.logId)
    && db.logs[req.logId].replicaId == req.replicaId
    && IsStale(db, req.replicaId, req.staleAfter)
  }

  /** A log of the instance that started after the log of the request. */
  predicate HasNewerOperation(logs: map<Text, Log>, req: InterruptRequest) {
    exists id :: id in logs && id != req.logId
      && logs[id].instance == req.instanceId && logs[id].startedAt > req.logStartedAt
  }

  function ClosedLog(l: Log, req: InterruptRequest): Log {
    l.(status := Error, errorMessage := req.message, completedAt := Some(req.now))
  }

  function FailedInstance(i: Instance, req: InterruptRequest): Instance {
    i.(status := "error", updatedAt := req.now, errorMessage := req.message,
       postDeployHookUntil := None, deleteAfterClean := false)
  }

  /** The optimistic lock of the instance update, counting changed rows. */
  predicate InstanceUpdates(db: Db, req: InterruptRequest) {
    && req.instanceId in db.instances
    && db.instances[req.instanceId].status == req.instanceStatus
    && db.instances[req.instanceId].updatedAt == req.instanceUpdatedAt
    && db.instances[req.instanceId] != FailedInstance(db.instances[req.instanceId], req)
  }

  function InterruptOutcomeOf(db: Db, req: InterruptRequest): InterruptOutcome {
    if !MayClose(db, req) then Result(false, false)
    else if req.instanceStatus == "" || HasNewerOperation(db.logs, req) then Result(true, false)
    else if InstanceUpdates(db, req) then Result(true, true)
    else Conflict
  }

  /** The committed effect of InterruptOperation. */
  function Interrupted(db: Db, req: InterruptRequest): Db {
    var outcome := InterruptOutcomeOf(db, req);
    if outcome.Conflict? || !outcome.logClosed then db
    else
      var closed := db.(logs := db.logs[req.logId := ClosedLog(db.logs[req.logId], req)]);
      if outcome.instanceUpdated
      then closed.(instances := db.instances[req.instanceId := FailedInstance(db.instances[req.instanceId], req)])
      else closed
  }

  // ----- Steps and runs -----

  datatype Step =
    | Insert(id: Text, row: Log)
    | Update(id: Text, write: Write)
    | Interrupt(req: InterruptRequest)
    | Retain(ids: set<Text>)
    | AssignUser(id: Text, user: Text)
    | PutInstance(id: Text, instance: Instance)
    | DropInstance(id: Text)
    | ClearDeleteAfterClean(id: Text)
    | MarkExpiryWarned(id: Text, expiresAt: int, at: int)
    | Beat(replica: Text)
    | RemoveBeat(replica: Text)
    | CleanupBeats(age: nat)
    | Tick(elapsed: nat)

  function Apply(db: Db, step: Step): Db {
    match step
    case Insert(id, row) =>
      if id in db.issued then db else db.(logs := db.logs[id := row], issued := db.issued + {id})
    case Update(id, w) => UpdateStatement(db, id, w)
    case Interrupt(req) => Interrupted(db, req)
    case Retain(ids) =>
      // The delete scope of retention: finished logs only.
      db.(logs := map id | id in db.logs && !(id in ids && IsFinished(db.logs[id])) :: db.logs[id])
    case AssignUser(id, user) =>
      // The user backfill; it also writes finished logs.
      if id in db.logs then db.(logs := db.logs[id := db.logs[id].(userId := user)]) else db
    case PutInstance(id, inst) => db.(instances := db.instances[id := inst])
    case DropInstance(id) => db.(instances := db.instances - {id})
    case ClearDeleteAfterClean(id) =>
      if id in db.instances
      then db.(instances := db.instances[id := db.instances[id].(deleteAfterClean := false)]) else db
    case MarkExpiryWarned(id, expiresAt, at) =>
      if id in db.instances && db.instances[id].expiryWarnedAt.None?
         && SameExpiry(db.instances[id].expiresAt, expiresAt)
      then db.(instances := db.instances[id := db.instances[id].(expiryWarnedAt := Some(at))]) else db
    case Beat(r) => db.(beats := db.beats[r := db.now])
    case RemoveBeat(r) => db.(beats := db.beats - {r})
    case CleanupBeats(age) => db.(beats := map r | r in db.beats && db.beats[r] >= db.now - age :: db.beats[r])
    case Tick(n) => db.(now := db.now + n)
  }

  function Run(db: Db, steps: seq<Step>): Db
    decreases |steps|
  {
    if steps == [] then db else Run(Apply(db, steps[0]), steps[1..])
  }

  // ----- A log is written once -----

  /** The rows agree in every column but user_id, which the backfill sets. */
  predicate SameButUser(a: Log, b: Log) {
    a.(userId := b.userId) == b
  }

  lemma StepKeepsClosed(db: Db, step: Step, id: Text)
    requires Valid(db)
    ensures var next := Apply(db, step);
      && Valid(next) && db.issued <= next.issued
      && (id in db.issued && !IsRunning(db, id) ==>
            !IsRunning(next, id) && (id in next.logs ==> id in db.logs && SameButUser(next.logs[id], db.logs[id])))
      && (IsRunning(db, id) ==> id in next.logs)
  {}

  /** Once a log is finished (or deleted) no interleaving of any writers on any
      number of replicas brings it back or changes a column of it, except for
      the user that the backfill sets. */
  lemma {:induction false} FinishedForever(db: Db, steps: seq<Step>, id: Text)
    requires Valid(db) && id in db.issued && !IsRunning(db, id)
    ensures var last := Run(db, steps);
      && !IsRunning(last, id)
      && (id in last.logs ==> id in db.logs && SameButUser(last.logs[id], db.logs[id]))
    decreases |steps|
  {
    if steps != [] {
      StepKeepsClosed(db, steps[0], id);
      FinishedForever(Apply(db, steps[0]), steps[1..], id);
    }
  }

  /** How often log id goes from running to another state in the run. */
  function Exits(db: Db, steps: seq<Step>, id: Text): nat
    decreases |steps|
  {
    if steps == [] then 0 else
      var next := Apply(db, steps[0]);
      (if IsRunning(db, id) && !IsRunning(next, id) then 1 else 0) + Exits(next, steps[1..], id)
  }

  lemma {:induction false} ClosedHasNoExit(db: Db, steps: seq<Step>, id: Text)
    requires Valid(db) && id in db.issued && !IsRunning(db, id)
    ensures Exits(db, steps, id) == 0
    decreases |steps|
  {
    if steps != [] {
      StepKeepsClosed(db, steps[0], id);
      ClosedHasNoExit(Apply(db, steps[0]), steps[1..], id);
    }
  }

  /** Across all writers and replicas a log leaves running at most once. */
  lemma {:induction false} LeavesRunningAtMostOnce(db: Db, steps: seq<Step>, id: Text)
    requires Valid(db)
    ensures Exits(db, steps, id) <= 1
    decreases |steps|
  {
    if steps != [] {
      var next := Apply(db, steps[0]);
      StepKeepsClosed(db, steps[0], id);
      if IsRunning(db, id) && !IsRunning(next, id) {
        ClosedHasNoExit(next, steps[1..], id);
      } else {
        LeavesRunningAtMostOnce(next, steps[1..], id);
      }
    }
  }

  // ----- The two-statement answers are linearizable -----

  /** A whole writer call: the UPDATE, then any statements of other processes,
      then (when no row changed) the COUNT of running rows. */
  function Call(db: Db, id: Text, w: Write, others: seq<Step>): (Db, Answer) {
    var after := Run(UpdateStatement(db, id, w), others);
    (after, if RowsAffected(db, id, w) > 0 || IsRunning(after, id) then Ok else NotRunning)
  }

  /** The intended operation: write and answer at one instant. */
  function AtomicCall(db: Db, id: Text, w: Write): (Db, Answer) {
    (UpdateStatement(db, id, w), if IsRunning(db, id) then Ok else NotRunning)
  }

  /** The call has the effect and the answer of the atomic operation at its
      first or at its last instant. */
  ghost predicate Linearized(db: Db, id: Text, w: Write, others: seq<Step>, after: Db, answer: Answer) {
    var atStart := AtomicCall(db, id, w);
    var atEnd := AtomicCall(Run(db, others), id, w);
    || (answer == atStart.1 && after == Run(atStart.0, others))
    || (answer == atEnd.1 && after == atEnd.0)
  }

  /** Every call is linearizable, except for a caller that writes a log before
      it is inserted: exactly then the COUNT can see a row that the UPDATE
      missed. */
  lemma WriterIsLinearizable(db: Db, id: Text, w: Write, others: seq<Step>)
    requires Valid(db)
    ensures var r := Call(db, id, w, others);
      var last := Run(db, others);
      Linearized(db, id, w, others, r.0, r.1) <==>
        id in db.issued || !IsRunning(last, id) || Written(w, last.logs[id]) == last.logs[id]
  {
    var last := Run(db, others);
    if id in db.issued {
      if !IsRunning(db, id) {
        FinishedForever(db, others, id);
      } else if Written(w, db.logs[id]) == db.logs[id] {
        assert UpdateStatement(db, id, w) == db;
      }
    } else if IsRunning(last, id) {
      assert UpdateStatement(db, id, w) == db;
      assert last.logs[id := Written(w, last.logs[id])][id] == Written(w, last.logs[id]);
      if Written(w, last.logs[id]) == last.logs[id] {
        assert last.logs[id := last.logs[id]] == last.logs;
      }
    }
  }

  /** Such a call: the UPDATE finds no row, then the log is inserted, and the
      COUNT reports a write that never happened. */
  lemma CallBeforeInsertIsNotLinearizable(db: Db, id: Text, row: Log, output: string)
    requires Valid(db) && id !in db.issued && row.status == Running && row.output != output
    ensures var r := Call(db, id, SetOutput(output), [Insert(id, row)]);
      && r.1 == Ok && r.0.logs[id].output != output
      && !Linearized(db, id, SetOutput(output), [Insert(id, row)], r.0, r.1)
  {
    var others := [Insert(id, row)];
    assert others[1..] == [];
    assert Run(db, others) == Apply(db, Insert(id, row));
    WriterIsLinearizable(db, id, SetOutput(output), others);
  }

  /** What the answers of the writers tell the caller of an inserted log. */
  lemma AnswersAreHonest(db: Db, id: Text, w: Write, others: seq<Step>)
    requires Valid(db) && id in db.issued
    ensures var r := Call(db, id, w, others);
      // nil: the row was running and the statement left the caller's values.
      && (r.1 == Ok ==>
            && IsRunning(db, id)
            && var l := UpdateStatement(db, id, w).logs[id];
               match w
               case SetRow(row) => l == row
               case ExtendTo(d) => l.deadlineAt.Some? && l.deadlineAt.value >= d && l.status == Running
               case SetOutput(o) => l.output == o && l.status == Running)
      // ErrDeployLogNotRunning: the row was not running at the COUNT, and the
      // call changed nothing.
      && (r.1 == NotRunning ==> r.0 == Run(db, others) && !IsRunning(r.0, id))
  {
    if !IsRunning(db, id) {
      FinishedForever(db, others, id);
    }
    if RowsAffected(db, id, w) == 0 && IsRunning(db, id) {
      assert UpdateStatement(db, id, w).logs == db.logs;
    }
  }

  // ----- A live replica keeps its operations -----

  /** In every state of the run the last beat of the replica (at time last) is
      at most staleAfter old; it is not removed, cleanup keeps at least
      staleAfter and the leader waits at least staleAfter. */
  ghost predicate KeepsBeating(db: Db, steps: seq<Step>, replica: Text, staleAfter: nat, last: int)
    decreases |steps|
  {
    && db.now <= last + staleAfter
    && (steps != [] ==>
          && steps[0] != RemoveBeat(replica)
          && (steps[0].CleanupBeats? ==> steps[0].age >= staleAfter)
          && (steps[0].Interrupt? ==> steps[0].req.staleAfter >= staleAfter)
          && KeepsBeating(Apply(db, steps[0]), steps[1..], replica, staleAfter,
                          if steps[0] == Beat(replica) then db.now else last))
  }

  /** No InterruptOperation of the run changes a running log of the replica. */
  ghost predicate OperationsSurvive(db: Db, steps: seq<Step>, replica: Text)
    decreases |steps|
  {
    steps != [] ==>
      && (steps[0].Interrupt? ==>
            forall id :: IsRunning(db, id) && db.logs[id].replicaId == replica ==>
              id in Apply(db, steps[0]).logs && Apply(db, steps[0]).logs[id] == db.logs[id])
      && OperationsSurvive(Apply(db, steps[0]), steps[1..], replica)
  }

  lemma {:induction false} LiveReplicaIsNeverInterrupted(
    db: Db, steps: seq<Step>, replica: Text, staleAfter: nat, last: int)
    requires replica in db.beats && db.beats[replica] == last
    requires KeepsBeating(db, steps, replica, staleAfter, last)
    ensures OperationsSurvive(db, steps, replica)
    decreases |steps|
  {
    if steps != [] {
      LiveReplicaIsNeverInterrupted(Apply(db, steps[0]), steps[1..], replica, staleAfter,
                                    if steps[0] == Beat(replica) then db.now else last);
    }
  }

  /** Just past the cleanup age, a replica that beat at time 0 and runs log
      id. */
  function JustCleanedUp(id: Text, row: Log, age: nat): Db {
    Db(map[id := row], {id}, map[], map[row.replicaId := 0], age + 1)
  }

  /** The condition on the cleanup age is exact: any shorter age lets the leader
      end an operation of a replica that keeps beating in time. */
  lemma ShortCleanupInterruptsLiveReplica(id: Text, row: Log, age: nat, staleAfter: nat, req: InterruptRequest)
    requires age < staleAfter && row.status == Running
    requires req.logId == id && req.replicaId == row.replicaId
    requires req.staleAfter == staleAfter && req.instanceStatus == ""
    ensures var db := JustCleanedUp(id, row, age);
      var steps := [CleanupBeats(age), Interrupt(req)];
      && db.beats[row.replicaId] + staleAfter >= db.now
      && !OperationsSurvive(db, steps, row.replicaId)
      && !IsRunning(Run(db, steps), id)
  {
    var db := JustCleanedUp(id, row, age);
    var steps := [CleanupBeats(age), Interrupt(req)];
    var cleaned := Apply(db, steps[0]);
    assert row.replicaId !in cleaned.beats;
    assert MayClose(cleaned, req);
    var closed := Apply(cleaned, Interrupt(req));
    assert !IsRunning(closed, id) && IsRunning(cleaned, id);
    assert steps[1..] == [Interrupt(req)] && steps[1..][1..] == [];
    assert Run(cleaned, [Interrupt(req)]) == closed;
    assert !OperationsSurvive(cleaned, [Interrupt(req)], row.replicaId);
  }

  // ----- The recovery never overwrites a newer operation -----

  /** InterruptOperation, whatever its request: what changed, and only when. */
  lemma InterruptIsGuarded(db: Db, req: InterruptRequest)
    ensures var outcome := InterruptOutcomeOf(db, req);
      var next := Interrupted(db, req);
      // A conflict, or a log that is not closed, leaves everything as it is.
      && (outcome.Conflict? || !outcome.logClosed ==> next == db)
      // A closed log fails with the message of the request and keeps its output.
      && (outcome.Result? && outcome.logClosed ==>
            && IsRunning(db, req.logId) && db.logs[req.logId].replicaId == req.replicaId
            && var closed := next.logs[req.logId];
               && closed.status == Error && closed.errorMessage == req.message && closed.completedAt == Some(req.now)
               && closed.output == db.logs[req.logId].output && closed.startedAt == db.logs[req.logId].startedAt)
      // No other log and no other instance is touched.
      && next.logs - {req.logId} == db.logs - {req.logId}
      && next.instances - {req.instanceId} == db.instances - {req.instanceId}
      && next.beats == db.beats && next.now == db.now
      // The instance changes only with the log, only without a newer
      // operation and only from the row version that the caller read.
      && (next.instances != db.instances ==>
            && IsRunning(db, req.logId) && !IsRunning(next, req.logId)
            && IsStale(db, req.replicaId, req.staleAfter)
            && (forall id :: id in db.logs && db.logs[id].instance == req.instanceId && id != req.logId ==>
                  db.logs[id].startedAt <= req.logStartedAt)
            && req.instanceId in db.instances
            && db.instances[req.instanceId].status == req.instanceStatus
            && db.instances[req.instanceId].updatedAt == req.instanceUpdatedAt
            && var failed := next.instances[req.instanceId];
               && failed.status == "error" && failed.errorMessage == req.message && failed.updatedAt == req.now
               && failed.postDeployHookUntil == None && !failed.deleteAfterClean
               && failed.expiryWarnedAt == db.instances[req.instanceId].expiryWarnedAt
               && failed.expiresAt == db.instances[req.instanceId].expiresAt
               && failed.other == db.instances[req.instanceId].other)
      && (outcome == Result(true, true) <==> next.instances != db.instances)
  {
    if MayClose(db, req) && InstanceUpdates(db, req) {
      var read := db.instances[req.instanceId];
      assert db.instances[req.instanceId := FailedInstance(read, req)][req.instanceId] != read;
    }
    assert Interrupted(db, req).logs - {req.logId} == db.logs - {req.logId};
  }

  /** The log of the request is running, is the one of the replica, and the
      replica has no heartbeat of the last staleAfter. */
  ghost predicate IsInterrupted(db: Db, req: InterruptRequest) {
    && req.logId in db.logs && db.logs[req.logId].status == Running
    && db.logs[req.logId].replicaId == req.replicaId
    && (req.replicaId in db.beats ==> db.now - db.beats[req.replicaId] > req.staleAfter)
  }

  /** No other log of the instance started after the log of the request. */
  ghost predicate IsNewest(db: Db, req: InterruptRequest) {
    forall id :: id in db.logs && id != req.logId && db.logs[id].instance == req.instanceId ==>
      db.logs[id].startedAt <= req.logStartedAt
  }

  /** The instance row has the status and updated_at that were read, and the
      update changes it. */
  ghost predicate PassesTheLock(db: Db, req: InterruptRequest) {
    && req.instanceId in db.instances
    && var i := db.instances[req.instanceId];
       && i.status == req.instanceStatus && i.updatedAt == req.instanceUpdatedAt
       && (i.status != "error" || i.updatedAt != req.now || i.errorMessage != req.message
           || i.postDeployHookUntil.Some? || i.deleteAfterClean)
  }

  /** The transaction decided by the tables alone. */
  ghost predicate InterruptsExactly(db: Db, req: InterruptRequest, next: Db, outcome: InterruptOutcome) {
    var mayFail := req.instanceStatus != "" && IsNewest(db, req);
    var conflict := IsInterrupted(db, req) && mayFail && !PassesTheLock(db, req);
    var closed := IsInterrupted(db, req) && !conflict;
    var failed := closed && mayFail;
    // The answer.
    && (outcome.Conflict? <==> conflict)
    && (outcome.Result? ==> (outcome.logClosed <==> closed) && (outcome.instanceUpdated <==> failed))
    // The log.
    && next.logs.Keys == db.logs.Keys
    && (forall id :: id in db.logs && (id != req.logId || !closed) ==> next.logs[id] == db.logs[id])
    && (closed ==>
          next.logs[req.logId] ==
            db.logs[req.logId].(status := Error, errorMessage := req.message, completedAt := Some(req.now)))
    // The instance.
    && next.instances.Keys == db.instances.Keys
    && (forall i :: i in db.instances && (i != req.instanceId || !failed) ==> next.instances[i] == db.instances[i])
    && (failed ==>
          next.instances[req.instanceId] ==
            db.instances[req.instanceId].(status := "error", updatedAt := req.now, errorMessage := req.message,
                                          postDeployHookUntil := None, deleteAfterClean := false))
    && next.issued == db.issued && next.beats == db.beats && next.now == db.now
  }

  lemma InterruptIsExact(db: Db, req: InterruptRequest)
    ensures InterruptsExactly(db, req, Interrupted(db, req), InterruptOutcomeOf(db, req))
  {
    assert MayClose(db, req) <==> IsInterrupted(db, req);
    assert HasNewerOperation(db.logs, req) <==> !IsNewest(db, req);
    assert InstanceUpdates(db, req) <==> PassesTheLock(db, req) by {
      if req.instanceId in db.instances {
        FailedDiffers(db.instances[req.instanceId], req);
      }
    }
  }

  lemma FailedDiffers(i: Instance, req: InterruptRequest)
    ensures i != FailedInstance(i, req) <==>
      (i.status != "error" || i.updatedAt != req.now || i.errorMessage != req.message
       || i.postDeployHookUntil.Some? || i.deleteAfterClean)
  {}

  // ----- The steps of other processes -----

  /** What the remaining steps of the machine do. */
  lemma OtherStepsTakeEffect(db: Db, id: Text, ids: set<Text>, user: Text, elapsed: nat, x: Text)
    // Retention removes exactly the finished logs it is given.
    ensures x in Apply(db, Retain(ids)).logs <==> x in db.logs && (x in ids ==> db.logs[x].status == Running)
    ensures x in Apply(db, Retain(ids)).logs ==> Apply(db, Retain(ids)).logs[x] == db.logs[x]
    // The backfill writes the user of one log, finished or not.
    ensures id in db.logs ==> Apply(db, AssignUser(id, user)).logs[id] == db.logs[id].(userId := user)
    ensures x in db.logs && x != id ==>
      x in Apply(db, AssignUser(id, user)).logs && Apply(db, AssignUser(id, user)).logs[x] == db.logs[x]
    // An instance goes.
    ensures x in Apply(db, DropInstance(id)).instances <==> x in db.instances && x != id
    // Time makes beats stale.
    ensures forall age: nat :: elapsed > age && id in db.beats && db.beats[id] <= db.now ==>
      IsStale(Apply(db, Tick(elapsed)), id, age)
  {}

  /** What the optimistic lock compares. */
  datatype Version = Version(status: string, updatedAt: int)

  predicate HasVersion(db: Db, id: Text, v: Version) {
    id in db.instances && Version(db.instances[id].status, db.instances[id].updatedAt) == v
  }

  /** The two statements that write an instance row and keep its updated_at. */
  predicate IsMark(step: Step, id: Text) {
    (step.ClearDeleteAfterClean? || step.MarkExpiryWarned?) && step.id == id
  }

  /** Apart from the marks, no step of the run writes row id with the version
      v: no writer has the clock reading and status of another one. */
  ghost predicate NeverReused(db: Db, steps: seq<Step>, id: Text, v: Version)
    decreases |steps|
  {
    steps != [] ==>
      var next := Apply(db, steps[0]);
      && (HasVersion(next, id, v) && !IsMark(steps[0], id) ==>
            id in db.instances && next.instances[id] == db.instances[id])
      && NeverReused(next, steps[1..], id, v)
  }

  /** A version that is there at the end of the run was there from the start. */
  lemma {:induction false} VersionNeverReturns(db: Db, steps: seq<Step>, id: Text, v: Version)
    requires NeverReused(db, steps, id, v) && HasVersion(Run(db, steps), id, v)
    ensures HasVersion(db, id, v)
    decreases |steps|
  {
    if steps != [] {
      VersionNeverReturns(Apply(db, steps[0]), steps[1..], id, v);
    }
  }

  /** A step of the run clears delete_after_clean of the instance. */
  predicate Clears(steps: seq<Step>, id: Text) {
    ClearDeleteAfterClean(id) in steps
  }

  /** The step is an expiry warning of the instance for its expiry time. */
  predicate IsWarning(step: Step, id: Text, stored: Option<int>) {
    step.MarkExpiryWarned? && step.id == id && SameExpiry(stored, step.expiresAt)
  }

  predicate Warns(steps: seq<Step>, id: Text, stored: Option<int>) {
    exists k :: 0 <= k < |steps| && IsWarning(steps[k], id, stored)
  }

  lemma MarksOfFirst(steps: seq<Step>, id: Text, stored: Option<int>)
    requires steps != []
    ensures Clears(steps, id) <==> steps[0] == ClearDeleteAfterClean(id) || Clears(steps[1..], id)
    ensures Warns(steps, id, stored) <==> IsWarning(steps[0], id, stored) || Warns(steps[1..], id, stored)
  {
    assert steps == [steps[0]] + steps[1..];
    if Warns(steps, id, stored) && !IsWarning(steps[0], id, stored) {
      var k :| 0 <= k < |steps| && IsWarning(steps[k], id, stored);
      assert steps[1..][k - 1] == steps[k];
    }
    if Warns(steps[1..], id, stored) {
      var k :| 0 <= k < |steps[1..]| && IsWarning(steps[1..][k], id, stored);
      assert steps[k + 1] == steps[1..][k];
    }
  }

  /** While the version stays, every column but the two marks stays, and the
      marks change exactly by their statements. */
  lemma {:induction false} OnlyMarksChange(db: Db, steps: seq<Step>, id: Text, v: Version)
    requires NeverReused(db, steps, id, v) && HasVersion(Run(db, steps), id, v)
    ensures id in db.instances
    ensures var read, last := db.instances[id], Run(db, steps).instances[id];
      && last == read.(deleteAfterClean := last.deleteAfterClean, expiryWarnedAt := last.expiryWarnedAt)
      && (last.deleteAfterClean == read.deleteAfterClean <==> !(read.deleteAfterClean && Clears(steps, id)))
      && (last.expiryWarnedAt == read.expiryWarnedAt <==>
            !(read.expiryWarnedAt.None? && Warns(steps, id, read.expiresAt)))
      && (last.deleteAfterClean ==> read.deleteAfterClean)
      && (read.expiryWarnedAt.Some? ==> last.expiryWarnedAt == read.expiryWarnedAt)
    decreases |steps|
  {
    VersionNeverReturns(db, steps, id, v);
    if steps != [] {
      var next := Apply(db, steps[0]);
      MarksOfFirst(steps, id, db.instances[id].expiresAt);
      VersionNeverReturns(next, steps[1..], id, v);
      OnlyMarksChange(next, steps[1..], id, v);
    }
  }

  /** The instance row of the request is the one that the leader read in db. */
  predicate WasRead(db: Db, req: InterruptRequest) {
    HasVersion(db, req.instanceId, Version(req.instanceStatus, req.instanceUpdatedAt))
  }

  /** The leader read the instance in db; whatever ran before its transaction,
      the transaction sets the instance to error only while every column but
      delete_after_clean and expiry_warned_at is still as it was read. The
      whole row is as read exactly when no mark of the run took effect. */
  lemma RecoveryOverwritesOnlyWhatItRead(db: Db, steps: seq<Step>, req: InterruptRequest)
    requires WasRead(db, req)
    requires NeverReused(db, steps, req.instanceId, Version(req.instanceStatus, req.instanceUpdatedAt))
    ensures var before := Run(db, steps);
      Interrupted(before, req).instances != before.instances ==>
        && req.instanceId in before.instances
        && var read, found := db.instances[req.instanceId], before.instances[req.instanceId];
           && found == read.(deleteAfterClean := found.deleteAfterClean, expiryWarnedAt := found.expiryWarnedAt)
           && (found == read <==>
                 && !(read.deleteAfterClean && Clears(steps, req.instanceId))
                 && !(read.expiryWarnedAt.None? && Warns(steps, req.instanceId, read.expiresAt)))
  {
    var before := Run(db, steps);
    InterruptIsGuarded(before, req);
    if Interrupted(before, req).instances != before.instances {
      OnlyMarksChange(db, steps, req.instanceId, Version(req.instanceStatus, req.instanceUpdatedAt));
    }
  }

  /** A database in which the request may close its log and finds its row. */
  ghost predicate Interruptible(db: Db, req: InterruptRequest) {
    && MayClose(db, req) && req.instanceStatus != "" && req.instanceStatus != "error"
    && !HasNewerOperation(db.logs, req) && WasRead(db, req)
  }

  lemma InterruptibleIsInterrupted(db: Db, req: InterruptRequest)
    requires Interruptible(db, req)
    ensures Interrupted(db, req).instances != db.instances
  {
    InterruptIsGuarded(db, req);
    assert InstanceUpdates(db, req);
  }

  /** A cleared delete mark does not stop the recovery, so the row it overwrites
      need not be the row it read. */
  lemma ClearedMarkIsNotNoticed(db: Db, req: InterruptRequest)
    requires Interruptible(db, req) && db.instances[req.instanceId].deleteAfterClean
    ensures var before := Run(db, [ClearDeleteAfterClean(req.instanceId)]);
      && req.instanceId in before.instances && before.instances[req.instanceId] != db.instances[req.instanceId]
      && Interrupted(before, req).instances != before.instances
  {
    var step := ClearDeleteAfterClean(req.instanceId);
    var before := Apply(db, step);
    assert [step][1..] == [];
    assert Run(before, []) == before;
    InterruptibleIsInterrupted(before, req);
  }

  /** The condition on versions is needed: a writer with the same status and the
      same clock reading is overwritten, whatever it wrote. */
  lemma ReusedVersionIsOverwritten(db: Db, req: InterruptRequest, row: Instance)
    requires Interruptible(db, req)
    requires row.status == req.instanceStatus && row.updatedAt == req.instanceUpdatedAt
    ensures var before := Run(db, [PutInstance(req.instanceId, row)]);
      && req.instanceId in before.instances && before.instances[req.instanceId] == row
      && Interrupted(before, req).instances != before.instances
  {
    var step := PutInstance(req.instanceId, row);
    var before := Apply(db, step);
    assert [step][1..] == [];
    assert Run(before, []) == before;
    InterruptibleIsInterrupted(before, req);
  }

  // ----- The repositories -----

  /** The tables as the repositories of one process use them. The parameter
      others of a writer holds the statements that other processes execute
      between its two statements. */
  class LogRepository {
    var logs: map<Text, Log>
    var issued: set<Text>
    var instances: map<Text, Instance>
    var beats: map<Text, int>
    var now: int

    ghost function View(): Db
      reads this
    {
      Db(logs, issued, instances, beats, now)
    }

    constructor ()
      ensures View() == Db(map[], {}, map[], map[], 0)
    {
      logs, issued, instances, beats, now := map[], {}, map[], map[], 0;
    }

    method Interleave(others: seq<Step>)
      requires Valid(View())
      modifies this
      ensures View() == Run(old(View()), others) && Valid(View())
    {
      var i := 0;
      while i < |others|
        invariant 0 <= i <= |others| && Valid(View())
        invariant Run(View(), others[i..]) == Run(old(View()), others)
      {
        var next := Apply(Db(logs, issued, instances, beats, now), others[i]);
        StepKeepsClosed(View(), others[i], []);
        assert others[i..][1..] == others[i + 1..];
        logs, issued, instances, beats, now := next.logs, next.issued, next.instances, next.beats, next.now;
        i := i + 1;
      }
    }

    /** SELECT COUNT(*) ... WHERE id = ? AND status = 'running'. No row is a
        final answer for an inserted log: no later run makes it running. */
    method CountRunning(id: Text) returns (count: nat)
      requires Valid(View())
      ensures count <= 1 && (count == 1 <==> IsRunning(View(), id))
      ensures count == 0 && id in issued ==> forall steps :: !IsRunning(Run(View(), steps), id)
    {
      count := if id in logs && logs[id].status == Running then 1 else 0;
      if count == 0 && id in issued {
        forall steps ensures !IsRunning(Run(View(), steps), id) {
          FinishedForever(View(), steps, id);
        }
      }
    }

    method Update(id: Text, row: Log, others: seq<Step>) returns (answer: Answer)
      requires Valid(View())
      modifies this
      ensures id in old(issued) ==> Linearized(old(View()), id, SetRow(row), others, View(), answer)
      ensures (View(), answer) == Call(old(View()), id, SetRow(row), others)
      ensures exists mid :: RowIsStored(old(View()), mid, id, row) && View() == Run(mid, others)
    {
      UpdateDoesWhatItSays(View(), id);
      ghost var mid := UpdateStatement(View(), id, SetRow(row));
      WriterIsLinearizable(View(), id, SetRow(row), others);
      var affected := 0;
      if id in logs && logs[id].status == Running {
        affected := if logs[id] == row then 0 else 1;
        logs := logs[id := row];
      }
      Interleave(others);
      if affected > 0 {
        return Ok;
      }
      var running := CountRunning(id);
      return if running > 0 then Ok else NotRunning;
    }

    method ExtendDeadline(id: Text, deadline: int, others: seq<Step>) returns (answer: Answer)
      requires Valid(View())
      modifies this
      ensures id in old(issued) ==> Linearized(old(View()), id, ExtendTo(deadline), others, View(), answer)
      ensures (View(), answer) == Call(old(View()), id, ExtendTo(deadline), others)
      ensures exists mid :: DeadlineIsExtended(old(View()), mid, id, deadline) && View() == Run(mid, others)
    {
      UpdateDoesWhatItSays(View(), id);
      ghost var mid := UpdateStatement(View(), id, ExtendTo(deadline));
      WriterIsLinearizable(View(), id, ExtendTo(deadline), others);
      var affected := 0;
      if id in logs && logs[id].status == Running
         && (logs[id].deadlineAt.None? || logs[id].deadlineAt.value < deadline) {
        affected := 1;
        logs := logs[id := logs[id].(deadlineAt := Some(deadline))];
      } else {
        assert UpdateStatement(View(), id, ExtendTo(deadline)).logs == logs;
      }
      Interleave(others);
      if affected > 0 {
        return Ok;
      }
      var running := CountRunning(id);
      return if running == 0 then NotRunning else Ok;
    }

    method UpdateRunningOutput(id: Text, output: string, others: seq<Step>) returns (answer: Answer)
      requires Valid(View())
      modifies this
      ensures id in old(issued) ==> Linearized(old(View()), id, SetOutput(output), others, View(), answer)
      ensures (View(), answer) == Call(old(View()), id, SetOutput(output), others)
      ensures exists mid :: OutputIsStored(old(View()), mid, id, output) && View() == Run(mid, others)
    {
      UpdateDoesWhatItSays(View(), id);
      ghost var mid := UpdateStatement(View(), id, SetOutput(output));
      WriterIsLinearizable(View(), id, SetOutput(output), others);
      var affected := 0;
      if id in logs && logs[id].status == Running {
        affected := if logs[id].output == output then 0 else 1;
        logs := logs[id := logs[id].(output := output)];
      }
      Interleave(others);
      if affected > 0 {
        return Ok;
      }
      var running := CountRunning(id);
      return if running == 0 then NotRunning else Ok;
    }

    /** The transaction, statement by statement; a conflict rolls the log back. */
    method InterruptOperation(req: InterruptRequest) returns (outcome: InterruptOutcome)
      modifies this
      ensures outcome == InterruptOutcomeOf(old(View()), req)
      ensures View() == Interrupted(old(View()), req)
      ensures InterruptsExactly(old(View()), req, View(), outcome)
    {
      InterruptIsExact(View(), req);
      var savepoint := logs;
      var closable := req.logId in logs && logs[req.logId].status == Running
        && logs[req.logId].replicaId == req.replicaId
        && !(req.replicaId in beats && beats[req.replicaId] >= now - req.staleAfter);
      if !closable {
        return Result(false, false);
      }
      var running := logs[req.logId];
      logs := logs[req.logId := running.(status := Error, errorMessage := req.message, completedAt := Some(req.now))];
      if req.instanceStatus == "" {
        return Result(true, false);
      }
      var newer := |set id | id in logs && id != req.logId
                       && logs[id].instance == req.instanceId && logs[id].startedAt > req.logStartedAt|;
      assert newer > 0 <==> HasNewerOperation(savepoint, req) by {
        NewerIgnoresOwnLog(savepoint, logs, req);
      }
      if newer > 0 {
        return Result(true, false);
      }
      var matched := req.instanceId in instances
        && instances[req.instanceId].status == req.instanceStatus
        && instances[req.instanceId].updatedAt == req.instanceUpdatedAt;
      var changed := matched && instances[req.instanceId] != FailedInstance(instances[req.instanceId], req);
      var affected := if changed then 1 else 0;
      if affected == 0 {
        logs := savepoint;
        return Conflict;
      }
      instances := instances[req.instanceId := FailedInstance(instances[req.instanceId], req)];
      return Result(true, true);
    }

    method BeatOnce(replica: Text)
      modifies this`beats
      ensures View() == Apply(old(View()), Beat(replica))
      ensures forall age: nat :: !IsStale(View(), replica, age)
    {
      beats := beats[replica := now];
    }

    method Remove(replica: Text)
      modifies this`beats
      ensures View() == Apply(old(View()), RemoveBeat(replica))
      ensures forall age: nat :: IsStale(View(), replica, age)
    {
      beats := beats - {replica};
    }

    /** Cleanup drops only rows that are stale for every age up to maxAge. */
    method DeleteOlderThan(maxAge: nat) returns (removed: nat)
      modifies this`beats
      ensures View() == Apply(old(View()), CleanupBeats(maxAge))
      ensures removed == |old(beats)| - |beats|
      ensures forall r, age: nat :: age <= maxAge ==> (IsStale(View(), r, age) <==> IsStale(old(View()), r, age))
    {
      var kept := map r | r in beats && beats[r] >= now - maxAge :: beats[r];
      var dropped := set r | r in beats && beats[r] < now - maxAge;
      assert beats.Keys == kept.Keys + dropped && kept.Keys !! dropped;
      removed := |dropped|;
      beats := kept;
    }

    /** The ids with a fresh heartbeat, filled in a loop over the found rows. */
    method SeenWithin(ids: seq<Text>, maxAge: nat) returns (seen: set<Text>)
      ensures forall r :: r in seen <==> r in ids && !IsStale(View(), r, maxAge)
    {
      seen := {};
      for i := 0 to |ids|
        invariant forall r :: r in seen <==> r in ids[..i] && !IsStale(View(), r, maxAge)
      {
        if ids[i] in beats && beats[ids[i]] >= now - maxAge {
          seen := seen + {ids[i]};
        }
      }
    }
  }

  lemma NewerIgnoresOwnLog(logs: map<Text, Log>, closed: map<Text, Log>, req: InterruptRequest)
    requires closed.Keys == logs.Keys && closed - {req.logId} == logs - {req.logId}
    ensures var newer := set id | id in closed && id != req.logId
                && closed[id].instance == req.instanceId && closed[id].startedAt > req.logStartedAt;
      |newer| > 0 <==> HasNewerOperation(logs, req)
  {
    var newer := set id | id in closed && id != req.logId
                && closed[id].instance == req.instanceId && closed[id].startedAt > req.logStartedAt;
    var rest := logs - {req.logId};
    assert forall id :: id in logs && id != req.logId ==> id in rest && rest[id] == logs[id];
    assert forall id :: id in closed && id != req.logId ==> id in rest && rest[id] == closed[id];
    if HasNewerOperation(logs, req) {
      var id :| id in logs && id != req.logId
        && logs[id].instance == req.instanceId && logs[id].startedAt > req.logStartedAt;
      assert id in newer;
    }
    if |newer| > 0 {
      var id :| id in newer;
      assert id in logs;
    }
  }
}
