/** Migration 49: give deploy logs without a user the owner of their instance,
    in batches until no row is left. */
module UserBackfill {
  import opened Keys
  import opened Logs
  import opened Retention

  type Owners = map<Text, Text>

  /** The join condition of the select. */
  predicate NeedsUser(logs: map<Text, Log>, owners: Owners, id: Text)
    requires id in logs
  {
    && logs[id].userId == [] && logs[id].action == Deploy
    && logs[id].instance in owners && owners[logs[id].instance] != []
  }

  function Unassigned(logs: map<Text, Log>, owners: Owners): set<Text> {
    set id | id in logs && NeedsUser(logs, owners, id)
  }

  /** The update of the selected rows. */
  function Assigned(logs: map<Text, Log>, owners: Owners, ids: set<Text>): map<Text, Log> {
    map id | id in logs ::
      if id in ids && logs[id].instance in owners then logs[id].(userId := owners[logs[id].instance]) else logs[id]
  }

  lemma BatchShrinks(logs: map<Text, Log>, owners: Owners, done: set<Text>, ids: set<Text>)
    requires done <= Unassigned(logs, owners) && ids <= Unassigned(Assigned(logs, owners, done), owners)
    ensures done + ids <= Unassigned(logs, owners) && done !! ids
    ensures Assigned(Assigned(logs, owners, done), owners, ids) == Assigned(logs, owners, done + ids)
    ensures Unassigned(Assigned(logs, owners, done), owners) == Unassigned(logs, owners) - done
  {
    var mid := Assigned(logs, owners, done);
    forall id | id in logs
      ensures id in Unassigned(mid, owners) <==> id in Unassigned(logs, owners) && id !in done
    {
      assert id in done ==> mid[id].userId != [];
      assert id !in done ==> mid[id] == logs[id];
    }
    assert Unassigned(mid, owners) == Unassigned(logs, owners) - done;
    assert Assigned(mid, owners, ids) == Assigned(logs, owners, done + ids);
  }

  class LogTable {
    var logs: map<Text, Log>
    const owners: Owners

    constructor (logs: map<Text, Log>, owners: Owners)
      ensures this.logs == logs && this.owners == owners
    {
      this.logs, this.owners := logs, owners;
    }

    /** For every batch size and every choice of rows per batch the loop ends
        and equals one update of all rows without a user; no row is left. */
    method BackfillDeployLogUsers(batchSize: nat)
      requires batchSize > 0
      modifies this
      ensures logs.Keys == old(logs).Keys
      ensures forall id :: id in logs ==>
        var was := old(logs)[id];
        logs[id] ==
          if was.userId == [] && was.action == Deploy && was.instance in owners && owners[was.instance] != []
          then was.(userId := owners[was.instance]) else was
      ensures logs == Assigned(old(logs), owners, Unassigned(old(logs), owners))
      ensures Unassigned(logs, owners) == {}
    {
      ghost var start := logs;
      ghost var done: set<Text> := {};
      assert Assigned(start, owners, done) == start;
      while true
        invariant done <= Unassigned(start, owners)
        invariant logs == Assigned(start, owners, done)
        decreases |Unassigned(start, owners)| - |done|
      {
        var ids := RetentionRepository.AnyRows(Unassigned(logs, owners), batchSize);
        BatchShrinks(start, owners, done, ids);
        if ids == {} {
          assert Unassigned(logs, owners) == {};
          assert done == Unassigned(start, owners);
          return;
        }
        logs := Assigned(logs, owners, ids);
        SubsetIsSmaller(done + ids, Unassigned(start, owners));
        done := done + ids;
      }
    }
  }
}
