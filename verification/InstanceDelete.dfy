/** Deleting instances that share a quick deploy definition. Every delete is
    two steps (the record, then the cleanup of the owned definition); the
    cleanup locks the definition row, counts in its snapshot and commits.
    Clones may be inserted at any time. */
module InstanceDelete {
  import opened Keys

  /** Instance, definition and chart ids: UUIDs of which only equality matters. */
  type Id = int

  type Time = int

  /** The number of a delete call. */
  type Call = int

  /** born is the time of the insert. */
  datatype Instance = Instance(definition: Id, born: Time)

  /** owner is the quick deploy instance that created the definition. */
  datatype Definition = Definition(owner: Option<Id>)

  datatype Phase = Starting | RecordDeleted | KnownOwned | Locked | Committing | Finished

  /** What the plain reads of a cleanup see in the snapshot of its first plain
      read (REPEATABLE READ): whether an instance uses the definition and
      whether the owner of the definition exists. */
  datatype Snapshot = Snapshot(at: Time, inUse: bool, ownerExists: bool)

  /** One call of DeleteInstanceWithOwnedDefinition. */
  datatype Deleter = Deleter(instance: Id, definition: Id, phase: Phase, lockedAt: Time, snapshot: Option<Snapshot>)

  datatype State = State(
    clock: Time,
    instances: map<Id, Instance>, issued: set<Id>,
    definitions: map<Id, Definition>, charts: map<Id, Id>,
    locks: map<Id, Call>, deleters: map<Call, Deleter>)

  datatype Step =
    | Begin(p: Call, instance: Id)
    | DeleteRecord(p: Call)
    | CheckOwner(p: Call)
    | LockDefinition(p: Call)
    | Count(p: Call)
    | Commit(p: Call)
    | Fail(p: Call)
    | Clone(id: Id, definition: Id)

  predicate Uses(s: State, i: Id, d: Id) {
    i in s.instances && s.instances[i].definition == d
  }

  predicate IsUsed(s: State, d: Id) {
    exists i :: i in s.instances && Uses(s, i, d)
  }

  predicate IsOwned(s: State, d: Id) {
    d in s.definitions && s.definitions[d].owner.Some?
  }

  predicate In(s: State, p: Call, phase: Phase) {
    p in s.deleters && s.deleters[p].phase == phase
  }

  /** The snapshot of a transaction that reads about d now. */
  function SnapshotNow(s: State, d: Id): Snapshot {
    Snapshot(s.clock, IsUsed(s, d), IsOwned(s, d) && s.definitions[d].owner.value in s.instances)
  }

  function Move(s: State, p: Call, phase: Phase): State
    requires p in s.deleters
  {
    s.(deleters := s.deleters[p := s.deleters[p].(phase := phase)])
  }

  /** Commit or rollback: the row lock goes. */
  function Release(s: State, p: Call): State
    requires p in s.deleters
  {
    Move(s, p, Finished).(locks := s.locks - {s.deleters[p].definition})
  }

  function Began(s: State, p: Call, i: Id): State {
    if p in s.deleters || i !in s.instances then s
    else s.(deleters := s.deleters[p := Deleter(i, s.instances[i].definition, Starting, 0, None)])
  }

  /** The transaction of DeleteInstanceRecord; a missing row is an error. */
  function RecordGone(s: State, p: Call): State {
    if !In(s, p, Starting) then s
    else if s.deleters[p].instance !in s.instances then Move(s, p, Finished)
    else Move(s, p, RecordDeleted).(instances := s.instances - {s.deleters[p].instance})
  }

  /** The plain read of cleanupOwnedDefinitionIfOwned. apart: it has a
      transaction of its own, as in the source; otherwise it opens the cleanup
      transaction and fixes the snapshot of the later count. */
  function OwnerChecked(apart: bool, s: State, p: Call): State {
    if !In(s, p, RecordDeleted) then s
    else if !IsOwned(s, s.deleters[p].definition) then Move(s, p, Finished)
    else if apart then Move(s, p, KnownOwned)
    else
      var v := SnapshotNow(s, s.deleters[p].definition);
      s.(deleters := s.deleters[p := s.deleters[p].(phase := KnownOwned, snapshot := Some(v))])
  }

  /** SELECT ... FOR UPDATE waits for the lock and then reads the newest row. */
  function DefinitionLocked(s: State, p: Call): State {
    if !In(s, p, KnownOwned) || s.deleters[p].definition in s.locks then s
    else if s.deleters[p].definition !in s.definitions then Move(s, p, Finished)
    else
      s.(deleters := s.deleters[p := s.deleters[p].(phase := Locked, lockedAt := s.clock)],
         locks := s.locks[s.deleters[p].definition := p])
  }

  /** The snapshot of the count: an earlier plain read fixed it, or it is of
      now. */
  function SnapshotOf(s: State, p: Call): Snapshot
    requires p in s.deleters
  {
    if s.deleters[p].snapshot.Some? then s.deleters[p].snapshot.value else SnapshotNow(s, s.deleters[p].definition)
  }

  /** The owner read and the count are plain reads. */
  function Counted(s: State, p: Call): State {
    if !In(s, p, Locked) || s.deleters[p].definition !in s.definitions then s
    else
      var d := s.deleters[p].definition;
      var owner := s.definitions[d].owner;
      var v := SnapshotOf(s, p);
      if owner.None? || (owner.value != s.deleters[p].instance && v.ownerExists) || v.inUse
      then Release(s, p)
      else s.(deleters := s.deleters[p := s.deleters[p].(phase := Committing, snapshot := Some(v))])
  }

  function Committed(s: State, p: Call): State {
    if !In(s, p, Committing) then s
    else
      var d := s.deleters[p].definition;
      Release(s, p).(definitions := s.definitions - {d},
                     charts := map c | c in s.charts && s.charts[c] != d :: s.charts[c])
  }

  /** The cleanup is best effort: an error at any point after the record delete
      rolls it back and leaves the definition behind. */
  function Failed(s: State, p: Call): State {
    if In(s, p, Locked) || In(s, p, Committing) then Release(s, p)
    else if In(s, p, RecordDeleted) || In(s, p, KnownOwned) then Move(s, p, Finished)
    else s
  }

  function Cloned(s: State, id: Id, d: Id): State {
    if id in s.issued then s
    else s.(instances := s.instances[id := Instance(d, s.clock)], issued := s.issued + {id})
  }

  /** A step that is not enabled (also a lock that must wait) does nothing. */
  function Effect(apart: bool, s: State, step: Step): State {
    match step
    case Begin(p, i) => Began(s, p, i)
    case DeleteRecord(p) => RecordGone(s, p)
    case CheckOwner(p) => OwnerChecked(apart, s, p)
    case LockDefinition(p) => DefinitionLocked(s, p)
    case Count(p) => Counted(s, p)
    case Commit(p) => Committed(s, p)
    case Fail(p) => Failed(s, p)
    case Clone(id, d) => Cloned(s, id, d)
  }

  function Apply(apart: bool, s: State, step: Step): State {
    Effect(apart, s, step).(clock := s.clock + 1)
  }

  function Run(apart: bool, s: State, steps: seq<Step>): State
    decreases |steps|
  {
    if steps == [] then s else Run(apart, Apply(apart, s, steps[0]), steps[1..])
  }

  // ----- The invariant -----

  /** If nothing used d in the snapshot, every user of d was inserted later. */
  ghost predicate SnapshotOk(s: State, v: Snapshot, d: Id) {
    v.at < s.clock && (!v.inUse ==> OnlyYoungUsers(s, d, v.at))
  }

  ghost predicate OnlyYoungUsers(s: State, d: Id, time: Time) {
    forall i :: i in s.instances && Uses(s, i, d) ==> s.instances[i].born > time
  }

  ghost predicate HoldsLock(s: State, p: Call)
    requires p in s.deleters
  {
    var d := s.deleters[p].definition;
    d in s.locks && s.locks[d] == p && d in s.definitions
  }

  ghost predicate DeleterOk(apart: bool, s: State, p: Call)
    requires p in s.deleters
  {
    var x := s.deleters[p];
    && x.instance in s.issued
    && (x.phase.Starting? ==> x.instance in s.instances ==> Uses(s, x.instance, x.definition))
    && (!x.phase.Starting? ==> x.instance !in s.instances)
    && (x.phase.Starting? || x.phase.RecordDeleted? ==> x.snapshot.None?)
    && (x.phase.Locked? || x.phase.Committing? ==> HoldsLock(s, p) && x.lockedAt < s.clock)
    && (x.snapshot.Some? ==> SnapshotOk(s, x.snapshot.value, x.definition))
    && (apart && x.snapshot.Some? ==> x.lockedAt < x.snapshot.value.at && (x.phase.Committing? || x.phase.Finished?))
    && (x.phase.Committing? ==> x.snapshot.Some? && !x.snapshot.value.inUse)
  }

  /** The instances of next are old ones, unchanged, or new inserts. */
  ghost predicate OldOrNew(s: State, next: State) {
    forall i :: i in next.instances ==>
      (i in s.instances && next.instances[i] == s.instances[i]) || (i !in s.issued && next.instances[i].born >= s.clock)
  }

  /** A deleter stays in order while it does not move and the tables keep what
      it relies on. */
  lemma BystanderStaysOk(apart: bool, s: State, next: State, q: Call)
    requires q in s.deleters && DeleterOk(apart, s, q) && q in next.deleters && next.deleters[q] == s.deleters[q]
    requires s.issued <= next.issued && s.clock <= next.clock && OldOrNew(s, next)
    requires s.deleters[q].phase.Locked? || s.deleters[q].phase.Committing? ==> HoldsLock(next, q)
    ensures DeleterOk(apart, next, q)
  {}

  /** A delete of an instance of d that will still decide about d, and that has
      not seen a reason to keep it. */
  ghost predicate Decides(s: State, p: Call, d: Id) {
    && p in s.deleters && s.deleters[p].definition == d
    && !s.deleters[p].phase.Starting? && !s.deleters[p].phase.Finished?
    && (s.deleters[p].snapshot.Some? ==>
          !s.deleters[p].snapshot.value.inUse && !s.deleters[p].snapshot.value.ownerExists)
  }

  ghost predicate IsDecided(s: State, d: Id) {
    exists p :: p in s.deleters && Decides(s, p, d)
  }

  /** d is used, or a delete that is still under way looks after it. */
  ghost predicate Cared(s: State, d: Id) {
    IsOwned(s, d) ==> IsUsed(s, d) || IsDecided(s, d)
  }

  ghost predicate Structure(apart: bool, s: State) {
    && s.instances.Keys <= s.issued
    && (forall p :: p in s.deleters ==> DeleterOk(apart, s, p))
    && (forall d :: d in s.definitions && s.definitions[d].owner.Some? ==>
          && s.definitions[d].owner.value in s.issued
          && (s.definitions[d].owner.value in s.instances ==> Uses(s, s.definitions[d].owner.value, d)))
    && (forall c :: c in s.charts ==> s.charts[c] in s.definitions)
  }

  /** Between s and next only deleter p moves: instances are old or new,
      definitions and charts only go, and the others keep their locks. A new
      snapshot of p is of now. */
  ghost predicate OnlyMoves(s: State, next: State, p: Call) {
    && next.clock == s.clock + 1
    && s.issued <= next.issued && next.instances.Keys <= next.issued && OldOrNew(s, next)
    && (forall q :: q in s.deleters ==> q in next.deleters)
    && (forall q :: q in next.deleters && q != p ==> q in s.deleters && next.deleters[q] == s.deleters[q])
    && (forall d :: d in s.locks && s.locks[d] != p ==>
          d in next.locks && next.locks[d] == s.locks[d] && (d in s.definitions ==> d in next.definitions))
    && (forall d :: d in next.definitions ==> d in s.definitions && next.definitions[d] == s.definitions[d])
    && (forall c :: c in next.charts ==>
          c in s.charts && next.charts[c] == s.charts[c] && next.charts[c] in next.definitions)
    && (p in next.deleters && next.deleters[p].snapshot.Some? ==>
          || next.deleters[p].snapshot.value.at == s.clock
          || (p in s.deleters && s.deleters[p].snapshot == next.deleters[p].snapshot))
  }

  ghost predicate TablesOk(s: State) {
    && s.instances.Keys <= s.issued
    && (forall c :: c in s.charts ==> s.charts[c] in s.definitions)
  }

  lemma StructureStays(apart: bool, s: State, next: State, p: Call)
    requires Structure(apart, s) && OnlyMoves(s, next, p) && (p in next.deleters ==> DeleterOk(apart, next, p))
    ensures Structure(apart, next)
  {
    forall q | q in next.deleters && q != p ensures DeleterOk(apart, next, q) {
      assert DeleterOk(apart, s, q);
      BystanderStaysOk(apart, s, next, q);
    }
    forall d | d in next.definitions && next.definitions[d].owner.Some?
               && next.definitions[d].owner.value in next.instances
      ensures Uses(next, next.definitions[d].owner.value, d)
    {
      assert Uses(s, s.definitions[d].owner.value, d);
    }
  }

  lemma RewriteMoves(s: State, next: State, p: Call)
    requires TablesOk(s) && p in next.deleters
    requires next == s.(clock := s.clock + 1, deleters := s.deleters[p := next.deleters[p]], locks := next.locks)
    requires forall d :: d in s.locks && s.locks[d] != p ==> d in next.locks && next.locks[d] == s.locks[d]
    requires next.deleters[p].snapshot.Some? ==>
      || next.deleters[p].snapshot.value.at == s.clock
      || (p in s.deleters && s.deleters[p].snapshot == next.deleters[p].snapshot)
    ensures OnlyMoves(s, next, p)
  {}

  lemma IdleMoves(s: State, p: Call)
    requires TablesOk(s)
    ensures OnlyMoves(s, s.(clock := s.clock + 1), p)
  {}

  lemma BeginMoves(s: State, p: Call, i: Id)
    requires TablesOk(s)
    ensures OnlyMoves(s, Began(s, p, i).(clock := s.clock + 1), p)
  {}

  lemma BeginMovesWell(apart: bool, s: State, p: Call, i: Id)
    requires s.instances.Keys <= s.issued && (p in s.deleters ==> DeleterOk(apart, s, p))
    ensures var next := Began(s, p, i).(clock := s.clock + 1);
      p in next.deleters ==> DeleterOk(apart, next, p)
  {}

  lemma DeleteRecordMoves(s: State, p: Call)
    requires TablesOk(s)
    ensures OnlyMoves(s, RecordGone(s, p).(clock := s.clock + 1), p)
  {}

  lemma DeleteRecordMovesWell(apart: bool, s: State, p: Call)
    requires p in s.deleters ==> DeleterOk(apart, s, p)
    ensures var next := RecordGone(s, p).(clock := s.clock + 1);
      p in next.deleters ==> DeleterOk(apart, next, p)
  {
    if p in s.deleters && !(In(s, p, Starting)) {
      BystanderStaysOk(apart, s, s.(clock := s.clock + 1), p);
    }
  }

  lemma CheckOwnerMoves(apart: bool, s: State, p: Call)
    requires TablesOk(s)
    ensures OnlyMoves(s, OwnerChecked(apart, s, p).(clock := s.clock + 1), p)
  {
    if In(s, p, RecordDeleted) {
      RewriteMoves(s, OwnerChecked(apart, s, p).(clock := s.clock + 1), p);
    } else {
      IdleMoves(s, p);
    }
  }

  lemma CheckOwnerMovesWell(apart: bool, s: State, p: Call)
    requires p in s.deleters ==> DeleterOk(apart, s, p)
    ensures var next := OwnerChecked(apart, s, p).(clock := s.clock + 1);
      p in next.deleters ==> DeleterOk(apart, next, p)
  {
    if p in s.deleters && !(In(s, p, RecordDeleted)) {
      BystanderStaysOk(apart, s, s.(clock := s.clock + 1), p);
    }
  }

  lemma LockMoves(s: State, p: Call)
    requires TablesOk(s)
    ensures OnlyMoves(s, DefinitionLocked(s, p).(clock := s.clock + 1), p)
  {
    if In(s, p, KnownOwned) && s.deleters[p].definition !in s.locks {
      RewriteMoves(s, DefinitionLocked(s, p).(clock := s.clock + 1), p);
    } else {
      IdleMoves(s, p);
    }
  }

  lemma LockMovesWell(apart: bool, s: State, p: Call)
    requires p in s.deleters ==> DeleterOk(apart, s, p)
    ensures var next := DefinitionLocked(s, p).(clock := s.clock + 1);
      p in next.deleters ==> DeleterOk(apart, next, p)
  {
    if p in s.deleters && !(In(s, p, KnownOwned) && s.deleters[p].definition !in s.locks) {
      BystanderStaysOk(apart, s, s.(clock := s.clock + 1), p);
    }
  }

  lemma CountMoves(apart: bool, s: State, p: Call)
    requires TablesOk(s) && (p in s.deleters ==> DeleterOk(apart, s, p))
    ensures OnlyMoves(s, Counted(s, p).(clock := s.clock + 1), p)
  {
    if In(s, p, Locked) && s.deleters[p].definition in s.definitions {
      RewriteMoves(s, Counted(s, p).(clock := s.clock + 1), p);
    } else {
      IdleMoves(s, p);
    }
  }

  lemma CountMovesWell(apart: bool, s: State, p: Call)
    requires p in s.deleters ==> DeleterOk(apart, s, p)
    ensures var next := Counted(s, p).(clock := s.clock + 1);
      p in next.deleters ==> DeleterOk(apart, next, p)
  {
    if p in s.deleters && !(In(s, p, Locked) && s.deleters[p].definition in s.definitions) {
      BystanderStaysOk(apart, s, s.(clock := s.clock + 1), p);
    }
  }

  lemma CommitMoves(apart: bool, s: State, p: Call)
    requires TablesOk(s) && (p in s.deleters ==> DeleterOk(apart, s, p))
    ensures OnlyMoves(s, Committed(s, p).(clock := s.clock + 1), p)
  {}

  lemma CommitMovesWell(apart: bool, s: State, p: Call)
    requires p in s.deleters ==> DeleterOk(apart, s, p)
    ensures var next := Committed(s, p).(clock := s.clock + 1);
      p in next.deleters ==> DeleterOk(apart, next, p)
  {}

  lemma FailMoves(apart: bool, s: State, p: Call)
    requires TablesOk(s) && (p in s.deleters ==> DeleterOk(apart, s, p))
    ensures OnlyMoves(s, Failed(s, p).(clock := s.clock + 1), p)
  {
    if p in s.deleters && !s.deleters[p].phase.Starting? && !s.deleters[p].phase.Finished? {
      RewriteMoves(s, Failed(s, p).(clock := s.clock + 1), p);
    } else {
      IdleMoves(s, p);
    }
  }

  lemma FailMovesWell(apart: bool, s: State, p: Call)
    requires p in s.deleters ==> DeleterOk(apart, s, p)
    ensures var next := Failed(s, p).(clock := s.clock + 1);
      p in next.deleters ==> DeleterOk(apart, next, p)
  {
    if p in s.deleters && !(p in s.deleters && !s.deleters[p].phase.Starting? && !s.deleters[p].phase.Finished?) {
      BystanderStaysOk(apart, s, s.(clock := s.clock + 1), p);
    }
  }

  lemma CloneMoves(s: State, id: Id, definition: Id)
    requires TablesOk(s)
    ensures OnlyMoves(s, Cloned(s, id, definition).(clock := s.clock + 1), 0)
  {}

  /** The delete call that moves in a step; a clone moves none. */
  function Mover(step: Step): Call {
    if step.Clone? then 0 else step.p
  }

  lemma StepMoves(apart: bool, s: State, step: Step)
    requires Structure(apart, s)
    ensures OnlyMoves(s, Apply(apart, s, step), Mover(step))
  {
    match step {
      case Begin(p, i) => BeginMoves(s, p, i);
      case DeleteRecord(p) => DeleteRecordMoves(s, p);
      case CheckOwner(p) => CheckOwnerMoves(apart, s, p);
      case LockDefinition(p) => LockMoves(s, p);
      case Count(p) => CountMoves(apart, s, p);
      case Commit(p) => CommitMoves(apart, s, p);
      case Fail(p) => FailMoves(apart, s, p);
      case Clone(id, d) => CloneMoves(s, id, d);
    }
  }

  lemma StepMovesWell(apart: bool, s: State, step: Step)
    requires Structure(apart, s) && OnlyMoves(s, Apply(apart, s, step), Mover(step))
    ensures Mover(step) in Apply(apart, s, step).deleters ==> DeleterOk(apart, Apply(apart, s, step), Mover(step))
  {
    match step {
      case Begin(p, i) => BeginMovesWell(apart, s, p, i);
      case DeleteRecord(p) => DeleteRecordMovesWell(apart, s, p);
      case CheckOwner(p) => CheckOwnerMovesWell(apart, s, p);
      case LockDefinition(p) => LockMovesWell(apart, s, p);
      case Count(p) => CountMovesWell(apart, s, p);
      case Commit(p) => CommitMovesWell(apart, s, p);
      case Fail(p) => FailMovesWell(apart, s, p);
      case Clone(id, d) =>
        if 0 in s.deleters {
          assert Apply(apart, s, step).deleters == s.deleters && Apply(apart, s, step).locks == s.locks;
          BystanderStaysOk(apart, s, Apply(apart, s, step), 0);
        }
    }
  }

  /** Every step keeps the structure: a lock holder's definition exists and its
      count is right up to later clones. */
  lemma StepKeepsStructure(apart: bool, s: State, step: Step)
    requires Structure(apart, s)
    ensures Structure(apart, Apply(apart, s, step)) && OnlyMoves(s, Apply(apart, s, step), Mover(step))
  {
    StepMoves(apart, s, step);
    StepMovesWell(apart, s, step);
    StructureStays(apart, s, Apply(apart, s, step), Mover(step));
  }

  /** The step is an error in a cleanup of d, and nothing else cares for d. */
  ghost predicate IsFatalFailure(s: State, step: Step, d: Id) {
    && step.Fail? && step.p in s.deleters && s.deleters[step.p].definition == d
    && !IsUsed(s, d) && forall q :: q in s.deleters && Decides(s, q, d) ==> q == step.p
  }

  /** The user x of d, or the delete q of an instance of d, that cares for d
      before the step is replaced by another one when the step ends it. */
  lemma DefinitionStaysCared(apart: bool, s: State, step: Step, d: Id)
    requires Structure(apart, s) && Cared(s, d) && !IsFatalFailure(s, step, d)
    ensures Cared(Apply(apart, s, step), d)
  {
    if IsOwned(Apply(apart, s, step), d) {
      StepKeepsDefinitionRows(apart, s, step, d);
      if x :| x in s.instances && Uses(s, x, d) {
        UserIsReplaced(apart, s, step, d, x);
      } else {
        var q :| q in s.deleters && Decides(s, q, d) && step != Fail(q);
        DeciderIsReplaced(apart, s, step, d, q);
      }
    }
  }

  lemma UserIsReplaced(apart: bool, s: State, step: Step, d: Id, x: Id)
    requires Structure(apart, s) && Uses(s, x, d)
    ensures IsUsed(Apply(apart, s, step), d) || IsDecided(Apply(apart, s, step), d)
  {
    var next := Apply(apart, s, step);
    if x in next.instances {
      assert Uses(next, x, d);
    } else {
      assert step.DeleteRecord? && DeleterOk(apart, s, step.p);
      assert Decides(next, step.p, d);
    }
  }

  lemma DeciderIsReplaced(apart: bool, s: State, step: Step, d: Id, q: Call)
    requires Structure(apart, s) && IsOwned(s, d) && Decides(s, q, d) && !IsUsed(s, d)
    requires d in Apply(apart, s, step).definitions && step != Fail(q)
    ensures IsDecided(Apply(apart, s, step), d)
  {
    assert DeleterOk(apart, s, q);
    assert SnapshotNow(s, d) == Snapshot(s.clock, false, false);
    StepMoves(apart, s, step);
    if !step.Clone? && !step.Begin? && step.p == q {
      DeciderMoves(apart, s, step, d);
    }
    assert Decides(Apply(apart, s, step), q, d);
  }

  lemma DeciderMoves(apart: bool, s: State, step: Step, d: Id)
    requires !step.Clone? && !step.Begin? && !step.Fail? && IsOwned(s, d) && Decides(s, step.p, d)
    requires SnapshotNow(s, d) == Snapshot(s.clock, false, false) && d in Apply(apart, s, step).definitions
    ensures Decides(Apply(apart, s, step), step.p, d)
  {
    match step {
      case DeleteRecord(p) => assert Decides(RecordGone(s, p), p, d);
      case CheckOwner(p) => assert Decides(OwnerChecked(apart, s, p), p, d);
      case LockDefinition(p) => assert Decides(DefinitionLocked(s, p), p, d);
      case Count(p) => assert Decides(Counted(s, p), p, d);
      case Commit(p) => assert Decides(Committed(s, p), p, d);
    }
  }

  // ----- No definition is forgotten -----

  lemma StepKeepsDefinitionRows(apart: bool, s: State, step: Step, d: Id)
    requires d in Apply(apart, s, step).definitions
    ensures d in s.definitions && Apply(apart, s, step).definitions[d] == s.definitions[d]
  {}

  /** A failure of a cleanup forgets a definition exactly when nothing else
      cares for it. */
  lemma FailureForgets(apart: bool, s: State, p: Call, d: Id)
    requires Structure(apart, s) && IsOwned(s, d) && Cared(s, d) && p in s.deleters && s.deleters[p].definition == d
    ensures Cared(Apply(apart, s, Fail(p)), d) <==> !IsFatalFailure(s, Fail(p), d)
  {
    if IsFatalFailure(s, Fail(p), d) {
      FatalFailureForgets(apart, s, p, d);
    } else {
      DefinitionStaysCared(apart, s, Fail(p), d);
    }
  }

  lemma FatalFailureForgets(apart: bool, s: State, p: Call, d: Id)
    requires Structure(apart, s) && IsOwned(s, d) && Cared(s, d) && IsFatalFailure(s, Fail(p), d)
    ensures !Cared(Apply(apart, s, Fail(p)), d)
  {
    var next := Apply(apart, s, Fail(p));
    StepMoves(apart, s, Fail(p));
    assert Decides(s, p, d) && In(next, p, Finished);
    forall q | q in next.deleters ensures !Decides(next, q, d) {
      if q != p { assert Decides(next, q, d) ==> Decides(s, q, d); }
    }
    forall i ensures !Uses(next, i, d) { assert !Uses(s, i, d); }
  }

  /** No failure of the run forgets d. */
  ghost predicate NoFatalFailure(apart: bool, s: State, steps: seq<Step>, d: Id)
    decreases |steps|
  {
    steps != [] ==> !IsFatalFailure(s, steps[0], d) && NoFatalFailure(apart, Apply(apart, s, steps[0]), steps[1..], d)
  }

  lemma {:induction false} RunKeepsCare(apart: bool, s: State, steps: seq<Step>, d: Id)
    requires Structure(apart, s) && Cared(s, d) && NoFatalFailure(apart, s, steps, d)
    ensures Structure(apart, Run(apart, s, steps)) && Cared(Run(apart, s, steps), d)
    decreases |steps|
  {
    if steps != [] {
      StepKeepsStructure(apart, s, steps[0]);
      DefinitionStaysCared(apart, s, steps[0], d);
      RunKeepsCare(apart, Apply(apart, s, steps[0]), steps[1..], d);
    }
  }

  lemma {:induction false} DefinitionRowsNeverChange(apart: bool, s: State, steps: seq<Step>, d: Id)
    requires d in Run(apart, s, steps).definitions
    ensures d in s.definitions && Run(apart, s, steps).definitions[d] == s.definitions[d]
    decreases |steps|
  {
    if steps != [] {
      DefinitionRowsNeverChange(apart, Apply(apart, s, steps[0]), steps[1..], d);
      StepKeepsDefinitionRows(apart, s, steps[0], d);
    }
  }

  /** Take one definition that is used, or that a delete under way looks after.
      Once no delete is between its record and its end, in whatever order they
      and any clones interleaved, whatever happens to other definitions and
      whichever cleanups fail, it is used or gone, with its charts, unless a
      cleanup failed that was the last care for it. */
  lemma NothingIsForgotten(apart: bool, s: State, steps: seq<Step>, d: Id)
    requires Structure(apart, s) && IsOwned(s, d) && Cared(s, d) && NoFatalFailure(apart, s, steps, d)
    requires forall p :: p in Run(apart, s, steps).deleters ==>
      Run(apart, s, steps).deleters[p].phase.Finished? || Run(apart, s, steps).deleters[p].phase.Starting?
    ensures var last := Run(apart, s, steps);
      !IsUsed(last, d) ==> d !in last.definitions && forall c :: c in last.charts ==> last.charts[c] != d
  {
    RunKeepsCare(apart, s, steps, d);
    var last := Run(apart, s, steps);
    if d in last.definitions {
      DefinitionRowsNeverChange(apart, s, steps, d);
    }
  }

  /** After an error in its last cleanup a definition stays without a user. */
  lemma FailedCleanupForgets(apart: bool, a: Id, d: Id)
    ensures var last := Run(apart, OwnerGone(a, d), [CheckOwner(0), Fail(0)]);
      IsOwned(last, d) && !IsUsed(last, d) && forall p :: p in last.deleters ==> last.deleters[p].phase.Finished?
  {
    RunTwo(apart, OwnerGone(a, d), [CheckOwner(0), Fail(0)]);
  }

  // ----- A definition in use is not deleted -----

  ghost predicate NeverRemovesUsed(apart: bool, s: State, steps: seq<Step>)
    decreases |steps|
  {
    steps != [] ==>
      && (forall d :: d in s.definitions && d !in Apply(apart, s, steps[0]).definitions ==> !IsUsed(s, d))
      && NeverRemovesUsed(apart, Apply(apart, s, steps[0]), steps[1..])
  }

  lemma OnlyCommitRemoves(apart: bool, s: State, step: Step, d: Id)
    requires d in s.definitions && d !in Apply(apart, s, step).definitions
    ensures step.Commit? && In(s, step.p, Committing) && s.deleters[step.p].definition == d
  {}

  /** Delete p has seen d unused and may still remove it. */
  predicate HasSeenUnused(s: State, p: Call, d: Id) {
    && p in s.deleters && s.deleters[p].definition == d && !s.deleters[p].phase.Finished?
    && s.deleters[p].snapshot.Some? && !s.deleters[p].snapshot.value.inUse
  }

  /** No definition that a delete has seen unused is in use. In the source a
      delete is in this window from its count to its commit. */
  ghost predicate WindowEmpty(s: State) {
    forall p, d :: HasSeenUnused(s, p, d) ==> !IsUsed(s, d)
  }

  /** The step inserts a clone of a definition that a delete has seen unused. */
  ghost predicate ClonesInWindow(s: State, step: Step) {
    step.Clone? && step.id !in s.issued && exists p :: p in s.deleters && HasSeenUnused(s, p, step.definition)
  }

  lemma OnlyClonesInsert(apart: bool, s: State, step: Step, i: Id)
    requires i in Apply(apart, s, step).instances
    requires !(step.Clone? && step.id == i && i !in s.issued)
    ensures i in s.instances && Apply(apart, s, step).instances[i] == s.instances[i]
  {}

  lemma WindowOpensOnUnused(apart: bool, s: State, step: Step, d: Id)
    requires !step.Clone? && HasSeenUnused(Apply(apart, s, step), step.p, d)
    ensures HasSeenUnused(s, step.p, d) || !IsUsed(s, d)
  {
    match step {
      case Begin(p, i) => assert HasSeenUnused(Began(s, p, i), p, d);
      case DeleteRecord(p) => assert HasSeenUnused(RecordGone(s, p), p, d);
      case CheckOwner(p) => assert HasSeenUnused(OwnerChecked(apart, s, p), p, d);
      case LockDefinition(p) => assert HasSeenUnused(DefinitionLocked(s, p), p, d);
      case Count(p) => assert HasSeenUnused(Counted(s, p), p, d);
      case Commit(p) => assert HasSeenUnused(Committed(s, p), p, d);
      case Fail(p) => assert HasSeenUnused(Failed(s, p), p, d);
    }
  }

  /** Who has seen d unused after a step had seen it before, or d is unused. */
  lemma SeenBefore(apart: bool, s: State, step: Step, p: Call, d: Id)
    requires Structure(apart, s) && HasSeenUnused(Apply(apart, s, step), p, d)
    ensures HasSeenUnused(s, p, d) || !IsUsed(s, d)
  {
    StepMoves(apart, s, step);
    if !step.Clone? && step.p == p {
      WindowOpensOnUnused(apart, s, step, d);
    } else if step.Clone? {
      assert Cloned(s, step.id, step.definition).deleters == s.deleters;
    }
  }

  /** Exactly the clones of a definition that a delete has seen unused end the
      emptiness of the window. */
  lemma StepKeepsWindow(apart: bool, s: State, step: Step)
    requires Structure(apart, s) && WindowEmpty(s)
    ensures WindowEmpty(Apply(apart, s, step)) <==> !ClonesInWindow(s, step)
  {
    var next := Apply(apart, s, step);
    if ClonesInWindow(s, step) {
      var p :| p in s.deleters && HasSeenUnused(s, p, step.definition);
      assert HasSeenUnused(next, p, step.definition) && Uses(next, step.id, step.definition);
    } else {
      forall p, d | HasSeenUnused(next, p, d) ensures !IsUsed(next, d) {
        SeenBefore(apart, s, step, p, d);
        assert !IsUsed(s, d);
        forall i | i in next.instances ensures !Uses(next, i, d) {
          NoNewUser(apart, s, step, p, d, i);
        }
      }
    }
  }

  lemma NoNewUser(apart: bool, s: State, step: Step, p: Call, d: Id, i: Id)
    requires HasSeenUnused(Apply(apart, s, step), p, d) && !ClonesInWindow(s, step) && !IsUsed(s, d)
    requires i in Apply(apart, s, step).instances
    ensures !Uses(Apply(apart, s, step), i, d)
  {
    if step.Clone? && step.id == i && i !in s.issued {
      assert Apply(apart, s, step).deleters == s.deleters;
      assert HasSeenUnused(s, p, d);
    } else {
      OnlyClonesInsert(apart, s, step, i);
      assert !Uses(s, i, d);
    }
  }

  ghost predicate RemovesUsed(apart: bool, s: State, step: Step) {
    exists d :: d in s.definitions && d !in Apply(apart, s, step).definitions && IsUsed(s, d)
  }

  /** With an empty window no next step removes a definition in use; in the
      source the converse holds too. */
  lemma WindowIsTheDanger(apart: bool, s: State)
    requires Structure(apart, s)
    ensures WindowEmpty(s) ==> forall step :: !RemovesUsed(apart, s, step)
    ensures apart && (forall step :: !RemovesUsed(apart, s, step)) ==> WindowEmpty(s)
  {
    if WindowEmpty(s) {
      forall step ensures !RemovesUsed(apart, s, step) {
        forall d | d in s.definitions && d !in Apply(apart, s, step).definitions ensures !IsUsed(s, d) {
          OnlyCommitRemoves(apart, s, step, d);
          assert DeleterOk(apart, s, step.p);
          assert HasSeenUnused(s, step.p, d);
        }
      }
    }
    if apart && forall step :: !RemovesUsed(apart, s, step) {
      forall p, d | HasSeenUnused(s, p, d) ensures !IsUsed(s, d) {
        assert DeleterOk(apart, s, p);
        assert !RemovesUsed(apart, s, Commit(p));
        assert d in s.definitions && d !in Apply(apart, s, Commit(p)).definitions;
      }
    }
  }

  /** No step of the run inserts a clone into a window. */
  ghost predicate NoCloneInWindow(apart: bool, s: State, steps: seq<Step>)
    decreases |steps|
  {
    steps != [] ==> !ClonesInWindow(s, steps[0]) && NoCloneInWindow(apart, Apply(apart, s, steps[0]), steps[1..])
  }

  /** At no point of the run, and not after it, could a next step remove a
      definition in use. */
  ghost predicate NeverInDanger(apart: bool, s: State, steps: seq<Step>)
    decreases |steps|
  {
    && (forall step :: !RemovesUsed(apart, s, step))
    && (steps != [] ==> NeverInDanger(apart, Apply(apart, s, steps[0]), steps[1..]))
  }

  /** With either place of the snapshot, no interleaving of any number of
      deletes, failures and clones removes a definition while an instance uses
      it, when no clone is of a definition that a delete has seen unused. */
  lemma {:induction false} DefinitionInUseStays(apart: bool, s: State, steps: seq<Step>)
    requires Structure(apart, s) && WindowEmpty(s) && NoCloneInWindow(apart, s, steps)
    ensures NeverRemovesUsed(apart, s, steps) && NeverInDanger(apart, s, steps)
    decreases |steps|
  {
    WindowIsTheDanger(apart, s);
    if steps != [] {
      assert !RemovesUsed(apart, s, steps[0]);
      StepKeepsStructure(apart, s, steps[0]);
      StepKeepsWindow(apart, s, steps[0]);
      DefinitionInUseStays(apart, Apply(apart, s, steps[0]), steps[1..]);
    }
  }

  /** The window from count to commit is exact: a run of the source is out of
      danger at every point if and only if no clone falls into a window. */
  lemma {:induction false} CloneWindowIsExact(s: State, steps: seq<Step>)
    requires Structure(true, s) && WindowEmpty(s)
    ensures NeverInDanger(true, s, steps) <==> NoCloneInWindow(true, s, steps)
    decreases |steps|
  {
    if NoCloneInWindow(true, s, steps) {
      DefinitionInUseStays(true, s, steps);
    }
    if NeverInDanger(true, s, steps) && steps != [] {
      var next := Apply(true, s, steps[0]);
      StepKeepsStructure(true, s, steps[0]);
      DangerIsNow(true, next, steps[1..]);
      WindowIsTheDanger(true, next);
      StepKeepsWindow(true, s, steps[0]);
      CloneWindowIsExact(next, steps[1..]);
    }
  }

  lemma DangerIsNow(apart: bool, s: State, steps: seq<Step>)
    requires NeverInDanger(apart, s, steps)
    ensures forall step :: !RemovesUsed(apart, s, step)
  {}

  /** In the source the window is the time from count to commit. */
  lemma WindowIsCountToCommit(s: State, p: Call, d: Id)
    requires Structure(true, s)
    ensures HasSeenUnused(s, p, d) <==> In(s, p, Committing) && s.deleters[p].definition == d
  {
    if p in s.deleters { assert DeleterOk(true, s, p); }
  }

  /** The instances that a cleanup leaves without their definition were cloned
      after its snapshot. */
  lemma UsersAreYounger(apart: bool, s: State, p: Call)
    requires Structure(apart, s) && In(s, p, Committing)
    ensures s.deleters[p].snapshot.Some?
    ensures forall i :: i in s.instances && Uses(s, i, s.deleters[p].definition) ==>
      s.instances[i].born > s.deleters[p].snapshot.value.at
  {
    assert DeleterOk(apart, s, p);
  }

  // ----- Why the owner check has a transaction of its own -----

  /** A removed definition leaves behind only instances that were cloned after
      the cleanup that removed it had the row lock: the count misses no clone
      from before. */
  ghost predicate MissesNoEarlierClone(apart: bool, s: State, steps: seq<Step>)
    decreases |steps|
  {
    steps != [] ==>
      && (forall d :: d in s.definitions && d !in Apply(apart, s, steps[0]).definitions ==>
            && steps[0].Commit? && In(s, steps[0].p, Committing)
            && forall i :: i in s.instances && Uses(s, i, d) ==> s.instances[i].born > s.deleters[steps[0].p].lockedAt)
      && MissesNoEarlierClone(apart, Apply(apart, s, steps[0]), steps[1..])
  }

  /** The same with the time of the count, which is the time of the snapshot
      and after the lock. */
  ghost predicate MissesOnlyAfterCount(s: State, steps: seq<Step>)
    decreases |steps|
  {
    steps != [] ==>
      && (forall d :: d in s.definitions && d !in Apply(true, s, steps[0]).definitions ==>
            && steps[0].Commit? && In(s, steps[0].p, Committing)
            && var x := s.deleters[steps[0].p];
               && x.snapshot.Some? && x.snapshot.value.at > x.lockedAt
               && forall i :: i in s.instances && Uses(s, i, d) ==> s.instances[i].born > x.snapshot.value.at)
      && MissesOnlyAfterCount(Apply(true, s, steps[0]), steps[1..])
  }

  /** Every instance that loses its definition was cloned after the count. */
  lemma {:induction false} OnlyLateClonesLoseTheirDefinition(s: State, steps: seq<Step>)
    requires Structure(true, s)
    ensures MissesOnlyAfterCount(s, steps) && MissesNoEarlierClone(true, s, steps)
    decreases |steps|
  {
    if steps != [] {
      forall d | d in s.definitions && d !in Apply(true, s, steps[0]).definitions
        ensures steps[0].Commit? && In(s, steps[0].p, Committing)
        ensures var x := s.deleters[steps[0].p];
          && x.snapshot.Some? && x.snapshot.value.at > x.lockedAt
          && forall i :: i in s.instances && Uses(s, i, d) ==> s.instances[i].born > x.snapshot.value.at
      {
        OnlyCommitRemoves(true, s, steps[0], d);
        UsersAreYounger(true, s, steps[0].p);
        assert DeleterOk(true, s, steps[0].p);
      }
      StepKeepsStructure(true, s, steps[0]);
      OnlyLateClonesLoseTheirDefinition(Apply(true, s, steps[0]), steps[1..]);
    }
  }

  /** The state of the runs below: the record of a, the owner of d, is gone. */
  function OwnerGone(a: Id, d: Id): State {
    State(2, map[], {a}, map[d := Definition(Some(a))], map[], map[], map[0 := Deleter(a, d, RecordDeleted, 0, None)])
  }

  lemma OwnerGoneIsValid(apart: bool, a: Id, d: Id)
    ensures Structure(apart, OwnerGone(a, d)) && Cared(OwnerGone(a, d), d) && WindowEmpty(OwnerGone(a, d))
  {
    assert Decides(OwnerGone(a, d), 0, d);
  }

  /** A clone that is inserted between the count and the commit loses its
      definition, also in the source: the lock does not block it. */
  lemma CloneAfterCountLosesItsDefinition(a: Id, b: Id, d: Id)
    requires a != b
    ensures var steps := [CheckOwner(0), LockDefinition(0), Count(0), Clone(b, d), Commit(0)];
      var last := Run(true, OwnerGone(a, d), steps);
      Uses(last, b, d) && d !in last.definitions
  {
    var s := OwnerGone(a, d);
    var steps := [CheckOwner(0), LockDefinition(0), Count(0), Clone(b, d), Commit(0)];
    var s2 := Apply(true, Apply(true, s, steps[0]), steps[1]);
    assert s2 == s.(clock := 4, locks := map[d := 0], deleters := map[0 := Deleter(a, d, Locked, 3, None)]);
    var s3 := Apply(true, s2, steps[2]);
    assert s3 == s2.(clock := 5, deleters := map[0 := Deleter(a, d, Committing, 3, Some(Snapshot(4, false, false)))]);
    var s5 := Apply(true, Apply(true, s3, steps[3]), steps[4]);
    assert Uses(s5, b, d);
    RunFive(true, s, steps);
  }

  lemma RunTwo(apart: bool, s: State, t: seq<Step>)
    requires |t| >= 2
    ensures Run(apart, s, t) == Run(apart, Apply(apart, Apply(apart, s, t[0]), t[1]), t[2..])
  {
    assert t[1..][0] == t[1] && t[1..][1..] == t[2..];
    var s1 := Apply(apart, s, t[0]);
    assert Run(apart, s1, t[1..]) == Run(apart, Apply(apart, s1, t[1]), t[1..][1..]);
  }

  lemma RunFive(apart: bool, s: State, t: seq<Step>)
    requires |t| == 5
    ensures Run(apart, s, t) ==
      Apply(apart, Apply(apart, Apply(apart, Apply(apart, Apply(apart, s, t[0]), t[1]), t[2]), t[3]), t[4])
  {
    RunTwo(apart, s, t);
    var s2 := Apply(apart, Apply(apart, s, t[0]), t[1]);
    RunTwo(apart, s2, t[2..]);
    assert t[2..][0] == t[2] && t[2..][1] == t[3] && t[2..][2..] == [t[4]];
    RunOne(apart, Apply(apart, Apply(apart, s2, t[2]), t[3]), t[4]);
  }

  lemma RunOne(apart: bool, s: State, step: Step)
    ensures Run(apart, s, [step]) == Apply(apart, s, step)
  {
    assert [step][1..] == [];
    assert Run(apart, Apply(apart, s, step), []) == Apply(apart, s, step);
  }

  /** When the owner check opens the cleanup transaction, the count misses a
      clone that was inserted while the cleanup waited for the lock. */
  lemma SharedSnapshotMissesAClone(a: Id, b: Id, d: Id)
    requires a != b
    ensures !MissesNoEarlierClone(false, OwnerGone(a, d),
      [CheckOwner(0), Clone(b, d), LockDefinition(0), Count(0), Commit(0)])
  {
    var s := OwnerGone(a, d);
    var t := [CheckOwner(0), Clone(b, d), LockDefinition(0), Count(0), Commit(0)];
    var v := Snapshot(2, false, false);
    var s2 := Apply(false, Apply(false, s, t[0]), t[1]);
    assert s2 == s.(clock := 4, instances := map[b := Instance(d, 3)], issued := {a, b},
                    deleters := map[0 := Deleter(a, d, KnownOwned, 0, Some(v))]);
    var s4 := Apply(false, Apply(false, s2, t[2]), t[3]);
    assert s4 == s2.(clock := 6, locks := map[d := 0], deleters := map[0 := Deleter(a, d, Committing, 4, Some(v))]);
    assert Uses(s4, b, d);
    assert d !in Apply(false, s4, t[4]).definitions;
    assert !MissesNoEarlierClone(false, s4, [t[4]]);
    assert t[1..][1..] == t[2..] && t[2..][1..] == t[3..] && t[3..][1..] == [t[4]];
    assert !MissesNoEarlierClone(false, s2, t[2..]);
  }

  /** In every run no count misses a clone from before its lock. */
  ghost predicate AlwaysMissesNoEarlierClone(apart: bool) {
    forall s: State, steps: seq<Step> :: Structure(apart, s) ==> MissesNoEarlierClone(apart, s, steps)
  }

  /** The rule of the comment is exact: the owner check needs a transaction of
      its own. */
  lemma SnapshotMustFollowTheLock(apart: bool)
    ensures AlwaysMissesNoEarlierClone(apart) <==> apart
  {
    if apart {
      forall s: State, steps: seq<Step> | Structure(true, s) ensures MissesNoEarlierClone(true, s, steps) {
        OnlyLateClonesLoseTheirDefinition(s, steps);
      }
    } else {
      OwnerGoneIsValid(false, 1, 3);
      SharedSnapshotMissesAClone(1, 2, 3);
    }
  }

  // ----- The code of one delete -----

  /** A delete that no other step interrupts. */
  function DeleteAlone(i: Id): seq<Step> {
    [Begin(0, i), DeleteRecord(0), CheckOwner(0), LockDefinition(0), Count(0), Commit(0)]
  }

  /** No delete is under way. */
  predicate IsQuiet(s: State) {
    s.deleters == map[] && s.locks == map[]
  }

  /** What decides about the definition of an instance that is gone. */
  predicate IsDead(s: State, i: Id, d: Id) {
    && IsOwned(s, d) && !IsUsed(s, d)
    && (s.definitions[d].owner.value == i || s.definitions[d].owner.value !in s.instances)
  }

  function WithoutDefinition(s: State, d: Id): State {
    s.(definitions := s.definitions - {d}, charts := map c | c in s.charts && s.charts[c] != d :: s.charts[c])
  }

  ghost predicate SameTables(a: State, b: State) {
    a.instances == b.instances && a.definitions == b.definitions && a.charts == b.charts
  }

  lemma RecordAlone(s: State, i: Id)
    requires IsQuiet(s) && i in s.instances
    ensures Apply(true, Apply(true, s, Begin(0, i)), DeleteRecord(0)) ==
      s.(clock := s.clock + 2, instances := s.instances - {i},
         deleters := map[0 := Deleter(i, s.instances[i].definition, RecordDeleted, 0, None)])
  {}

  lemma LockAlone(s: State, i: Id, d: Id)
    requires s.locks == map[] && s.deleters == map[0 := Deleter(i, d, RecordDeleted, 0, None)]
    ensures Apply(true, Apply(true, s, CheckOwner(0)), LockDefinition(0)) ==
      if IsOwned(s, d)
      then s.(clock := s.clock + 2, locks := map[d := 0],
              deleters := map[0 := Deleter(i, d, Locked, s.clock + 1, None)])
      else s.(clock := s.clock + 2, deleters := map[0 := Deleter(i, d, Finished, 0, None)])
  {}

  lemma CommitAlone(s: State, i: Id, d: Id, time: Time)
    requires IsOwned(s, d) && s.locks == map[d := 0] && s.deleters == map[0 := Deleter(i, d, Locked, time, None)]
    ensures SameTables(Apply(true, Apply(true, s, Count(0)), Commit(0)),
                       if IsDead(s, i, d) then WithoutDefinition(s, d) else s)
  {
    var s1 := Apply(true, s, Count(0));
    if IsDead(s, i, d) {
      assert In(s1, 0, Committing);
    } else {
      assert In(s1, 0, Finished);
    }
  }

  /** The decision of the count in the source, and what the commit removes. */
  lemma CountDecides(s: State, p: Call)
    requires In(s, p, Locked) && s.deleters[p].snapshot.None? && s.deleters[p].definition in s.definitions
    ensures var x := s.deleters[p];
      var owner := s.definitions[x.definition].owner;
      In(Apply(true, s, Count(p)), p, Committing) <==>
        && owner.Some? && (owner.value == x.instance || owner.value !in s.instances)
        && forall i :: i in s.instances ==> s.instances[i].definition != x.definition
  {}

  lemma CommitRemoves(s: State, p: Call, c: Id, d: Id)
    requires In(s, p, Committing)
    ensures var next, mine := Apply(true, s, Commit(p)), s.deleters[p].definition;
      && (d in next.definitions <==> d in s.definitions && d != mine)
      && (c in next.charts <==> c in s.charts && s.charts[c] != mine)
      && (d in next.definitions ==> next.definitions[d] == s.definitions[d])
      && (c in next.charts ==> next.charts[c] == s.charts[c])
      && next.instances == s.instances && mine !in next.locks
  {}

  /** The tables after such a delete. */
  function AfterDelete(s: State, i: Id): State
    requires i in s.instances
  {
    var gone := s.(instances := s.instances - {i});
    var d := s.instances[i].definition;
    if IsDead(gone, i, d) then WithoutDefinition(gone, d) else gone
  }

  /** The cleanup steps after the record delete. */
  lemma CleanupAlone(s: State, i: Id, d: Id)
    requires s.locks == map[] && s.deleters == map[0 := Deleter(i, d, RecordDeleted, 0, None)]
    ensures SameTables(
      Apply(true, Apply(true, Apply(true, Apply(true, s, CheckOwner(0)), LockDefinition(0)), Count(0)), Commit(0)),
      if IsDead(s, i, d) then WithoutDefinition(s, d) else s)
  {
    LockAlone(s, i, d);
    var next := Apply(true, Apply(true, s, CheckOwner(0)), LockDefinition(0));
    SameTablesDecideAlike(s, next, i, d);
    if IsOwned(s, d) {
      CommitAlone(next, i, d, s.clock + 1);
    } else {
      FinishedStays(next, 0);
    }
  }

  lemma SameTablesDecideAlike(a: State, b: State, i: Id, d: Id)
    requires SameTables(a, b)
    ensures IsDead(a, i, d) <==> IsDead(b, i, d)
    ensures SameTables(WithoutDefinition(a, d), WithoutDefinition(b, d))
  {
    assert forall x :: Uses(a, x, d) <==> Uses(b, x, d);
  }

  lemma FinishedStays(s: State, p: Call)
    requires In(s, p, Finished)
    ensures SameTables(Apply(true, Apply(true, s, Count(p)), Commit(p)), s)
  {}

  lemma RunSix(apart: bool, s: State, t: seq<Step>)
    requires |t| == 6
    ensures Run(apart, s, t) ==
      Apply(apart, Apply(apart, Apply(apart, Apply(apart,
        Apply(apart, Apply(apart, s, t[0]), t[1]), t[2]), t[3]), t[4]), t[5])
  {
    RunTwo(apart, s, t);
    RunFour(apart, Apply(apart, Apply(apart, s, t[0]), t[1]), t[2..]);
  }

  lemma RunFour(apart: bool, s: State, t: seq<Step>)
    requires |t| == 4
    ensures Run(apart, s, t) == Apply(apart, Apply(apart, Apply(apart, Apply(apart, s, t[0]), t[1]), t[2]), t[3])
  {
    RunTwo(apart, s, t);
    RunTwo(apart, Apply(apart, Apply(apart, s, t[0]), t[1]), t[2..]);
    assert t[2..][2..] == [];
  }

  lemma DeleteAloneEffect(s: State, i: Id)
    requires IsQuiet(s) && i in s.instances
    ensures SameTables(Run(true, s, DeleteAlone(i)), AfterDelete(s, i))
  {
    var d := s.instances[i].definition;
    RunSix(true, s, DeleteAlone(i));
    RecordAlone(s, i);
    var s2 := Apply(true, Apply(true, s, Begin(0, i)), DeleteRecord(0));
    CleanupAlone(s2, i, d);
    SameTablesDecideAlike(s2, s.(instances := s.instances - {i}), i, d);
  }

  /** The tables of the store are those of a state of the machine. */
  ghost predicate Matches(instances: map<Id, Id>, definitions: map<Id, Definition>, charts: map<Id, Id>, s: State) {
    && instances.Keys == s.instances.Keys && (forall i :: i in instances ==> s.instances[i].definition == instances[i])
    && definitions == s.definitions && charts == s.charts
  }

  /** The condition of CleanupOwnedDefinition on the tables of the store. */
  ghost predicate IsDeadRow(instances: map<Id, Id>, definitions: map<Id, Definition>, inst: Id, d: Id) {
    && d in definitions && definitions[d].owner.Some?
    && (definitions[d].owner.value == inst || definitions[d].owner.value !in instances)
    && forall i :: i in instances ==> instances[i] != d
  }

  function ChartsWithout(charts: map<Id, Id>, d: Id): map<Id, Id> {
    map c | c in charts && charts[c] != d :: charts[c]
  }

  lemma MatchesAfterDelete(
    s: State, instances: map<Id, Id>, definitions: map<Id, Definition>, charts: map<Id, Id>, inst: Id)
    requires inst in instances && IsQuiet(s) && Matches(instances, definitions, charts, s)
    ensures var d, rest := instances[inst], instances - {inst};
      var dead := IsDeadRow(rest, definitions, inst, d);
      Matches(rest, if dead then definitions - {d} else definitions, if dead then ChartsWithout(charts, d) else charts,
              Run(true, s, DeleteAlone(inst)))
  {
    var d, rest := instances[inst], instances - {inst};
    var gone := s.(instances := s.instances - {inst});
    assert forall i :: i in rest ==> i in gone.instances && gone.instances[i].definition == rest[i];
    assert IsUsed(gone, d) <==> exists i :: i in rest && rest[i] == d by {
      assert forall i :: Uses(gone, i, d) <==> i in rest && rest[i] == d;
    }
    DeleteAloneEffect(s, inst);
  }

  datatype ChildTable = BranchOverride | ValueOverride | QuotaOverride | Follower | ActionRun

  /** A row of a table that refers to an instance. */
  datatype Child = Child(table: ChildTable, row: Id, instance: Id)

  datatype DeleteResult = Deleted | NotFound

  class InstanceStore {
    /** Instance id to definition id. */
    var instances: map<Id, Id>
    var children: set<Child>
    var definitions: map<Id, Definition>
    var charts: map<Id, Id>

    constructor (instances: map<Id, Id>, children: set<Child>, definitions: map<Id, Definition>, charts: map<Id, Id>)
      ensures this.instances == instances && this.children == children
      ensures this.definitions == definitions && this.charts == charts
    {
      this.instances, this.children, this.definitions, this.charts := instances, children, definitions, charts;
    }

    method DeleteByInstance(table: ChildTable, inst: Id)
      modifies this`children
      ensures children == set c | c in old(children) && !(c.table == table && c.instance == inst)
    {
      children := set c | c in children && !(c.table == table && c.instance == inst);
    }

    /** One transaction, in the order of the source: the followers go after the
        instance row. A missing instance rolls the earlier deletes back. */
    method DeleteInstanceRecord(inst: Id) returns (result: DeleteResult)
      modifies this`instances, this`children
      ensures result == NotFound <==> inst !in old(instances)
      ensures result == NotFound ==> instances == old(instances) && children == old(children)
      ensures result == Deleted ==>
        && instances == old(instances) - {inst}
        && children == set c | c in old(children) && c.instance != inst
    {
      var savepoint := children;
      DeleteByInstance(BranchOverride, inst);
      DeleteByInstance(ValueOverride, inst);
      DeleteByInstance(QuotaOverride, inst);
      if inst !in instances {
        children := savepoint;
        return NotFound;
      }
      instances := instances - {inst};
      DeleteByInstance(Follower, inst);
      DeleteByInstance(ActionRun, inst);
      return Deleted;
    }

    /** The cleanup deletes the definition exactly when it is owned, its owner
        is inst or gone, and no instance uses it; charts go only with it. */
    method CleanupOwnedDefinition(inst: Id, definition: Id)
      modifies this`definitions, this`charts
      ensures definition in definitions <==>
        && definition in old(definitions)
        && (|| old(definitions)[definition].owner.None?
            || (old(definitions)[definition].owner != Some(inst)
                && old(definitions)[definition].owner.value in instances)
            || exists i :: i in instances && instances[i] == definition)
      ensures definitions - {definition} == old(definitions) - {definition}
      ensures forall c :: c in old(charts) ==>
        (c !in charts <==> old(charts)[c] == definition && definition in old(definitions) && definition !in definitions)
      ensures forall c :: c in charts ==> c in old(charts) && charts[c] == old(charts)[c]
      ensures var dead := IsDeadRow(instances, old(definitions), inst, definition);
        && definitions == (if dead then old(definitions) - {definition} else old(definitions))
        && charts == (if dead then ChartsWithout(old(charts), definition) else old(charts))
    {
      if definition !in definitions {
        return;
      }
      var def := definitions[definition];
      if def.owner.None? {
        return;
      }
      if def.owner.value != inst && def.owner.value in instances {
        return;
      }
      var inUse := exists i :: i in instances && instances[i] == definition;
      if inUse {
        return;
      }
      charts := ChartsWithout(charts, definition);
      definitions := definitions - {definition};
    }

    /** Both steps are a delete of the machine that no other step interrupts.
        Afterwards no definition owned by the deleted instance is left without
        a user. */
    method DeleteInstanceWithOwnedDefinition(inst: Id) returns (result: DeleteResult)
      modifies this
      ensures result == NotFound <==> inst !in old(instances)
      ensures result == NotFound ==> unchanged(this)
      ensures result == Deleted ==>
        && instances == old(instances) - {inst}
        && (forall c :: c in children <==> c in old(children) && c.instance != inst)
        && (var d := old(instances)[inst];
            && definitions - {d} == old(definitions) - {d}
            && (d in definitions && definitions[d] == Definition(Some(inst)) ==>
                  exists i :: i in instances && instances[i] == d)
            && (d in old(definitions) && d !in definitions ==>
                  (forall i :: i in instances ==> instances[i] != d) && (forall c :: c in charts ==> charts[c] != d)))
      ensures result == Deleted ==>
        forall s :: IsQuiet(s) && Matches(old(instances), old(definitions), old(charts), s) ==>
          Matches(instances, definitions, charts, Run(true, s, DeleteAlone(inst)))
    {
      if inst !in instances {
        result := DeleteInstanceRecord(inst);
        return;
      }
      var definition := instances[inst];
      result := DeleteInstanceRecord(inst);
      // The read of cleanupOwnedDefinitionIfOwned.
      var owned := definition in definitions && definitions[definition].owner.Some?;
      if owned {
        CleanupOwnedDefinition(inst, definition);
      }
      forall s | IsQuiet(s) && Matches(old(instances), old(definitions), old(charts), s)
        ensures Matches(instances, definitions, charts, Run(true, s, DeleteAlone(inst)))
      {
        MatchesAfterDelete(s, old(instances), old(definitions), old(charts), inst);
      }
    }
  }
}
