/** The deployment_logs row (models/deployment_log.go). */
module Logs {
  import opened Keys

  datatype Action = Deploy | Stop | Clean | Rollback

  datatype Status = Running | Success | Error | Partial

  /** payload stands for the columns that no modelled statement reads
      (values snapshot, branch, chart versions). An empty text is SQL NULL
      or ''. */
  datatype Log = Log(
    instance: Text, action: Action, status: Status,
    startedAt: int, completedAt: Option<int>,
    output: string, errorMessage: string, payload: string,
    targetLogId: Text, userId: Text,
    replicaId: Text, deadlineAt: Option<int>)

  predicate IsHistory(l: Log) {
    l.action == Deploy || l.action == Rollback
  }

  predicate IsFinished(l: Log) {
    l.status != Running
  }
}
