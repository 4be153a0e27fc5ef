/** The cached default cluster of one process: lookups with a read-locked fast
    path and a write-locked slow path, database changes by anyone, and
    InvalidateDefault. */
module DefaultCluster {
  import opened Keys

  type Id = int

  /** The cache with the time of the database read that filled it. */
  datatype Cache = Unresolved | Resolved(value: Option<Id>, readAt: nat)

  datatype Answer = Answer(value: Option<Id>, readAt: nat) | Failed

  /** ResolveClusterID and GetDefaultClients also remember that there is no
      default; GetRegistryConfig does not. */
  datatype Kind = Resolving | RegistryConfig

  datatype Phase =
    | Started
    | Waiting
    | Fetched(value: Option<Id>, readAt: nat)
    | Locked
    | Found(value: Option<Id>, readAt: nat)
    | Done(answer: Answer)

  /** since is the time of the last invalidation before the lookup started. */
  datatype Lookup = Lookup(kind: Kind, since: nat, phase: Phase)

  /** history[t] is the default cluster in the database at time t; the last
      entry is the current one. */
  datatype State = State(
    history: seq<Option<Id>>, cache: Cache, lock: Option<nat>,
    invalidatedAt: nat, lookups: map<nat, Lookup>)

  function Now(s: State): nat
    requires s.history != []
  {
    |s.history| - 1
  }

  function Current(s: State): Option<Id>
    requires s.history != []
  {
    s.history[|s.history| - 1]
  }

  datatype Step =
    | Start(p: nat, kind: Kind)
    | FastRead(p: nat)
    | Acquire(p: nat)
    | FindDefault(p: nat, ok: bool)
    | Store(p: nat)
    | ChangeDefault(value: Option<Id>)
    | Invalidate

  predicate At(s: State, p: nat, phase: Phase) {
    p in s.lookups && s.lookups[p].phase == phase
  }

  function Move(s: State, p: nat, phase: Phase): State
    requires p in s.lookups
  {
    s.(lookups := s.lookups[p := s.lookups[p].(phase := phase)])
  }

  /** The RLock section: it waits while a writer holds the lock. */
  function AfterFastRead(s: State, p: nat): State {
    if !At(s, p, Started) || s.lock.Some? then s
    else if s.cache.Resolved? then Move(s, p, Done(Answer(s.cache.value, s.cache.readAt)))
    else Move(s, p, Waiting)
  }

  /** Lock and double-check. underLock is the order of the source: the database
      read comes after the lock. */
  function AfterAcquire(underLock: bool, s: State, p: nat): State {
    if p !in s.lookups || s.lock.Some? then s
    else if !(if underLock then s.lookups[p].phase.Waiting? else s.lookups[p].phase.Fetched?) then s
    else if s.cache.Resolved? then Move(s, p, Done(Answer(s.cache.value, s.cache.readAt)))
    else if underLock then Move(s, p, Locked).(lock := Some(p))
    else Move(s, p, Found(s.lookups[p].phase.value, s.lookups[p].phase.readAt)).(lock := Some(p))
  }

  /** A transient failure is not cached. */
  function AfterFind(underLock: bool, s: State, p: nat, ok: bool): State
    requires s.history != []
  {
    if p !in s.lookups then s
    else if underLock && s.lookups[p].phase.Locked? then
      if ok then Move(s, p, Found(Current(s), Now(s))) else Move(s, p, Done(Failed)).(lock := None)
    else if !underLock && s.lookups[p].phase.Waiting? then
      if ok then Move(s, p, Fetched(Current(s), Now(s))) else Move(s, p, Done(Failed))
    else s
  }

  function AfterStore(s: State, p: nat): State {
    if p !in s.lookups || !s.lookups[p].phase.Found? then s
    else
      var f := s.lookups[p].phase;
      var next := Move(s, p, Done(Answer(f.value, f.readAt))).(lock := None);
      if s.lookups[p].kind == RegistryConfig && f.value.None? then next
      else next.(cache := Resolved(f.value, f.readAt))
  }

  function Effect(underLock: bool, s: State, step: Step): State
    requires s.history != []
  {
    match step
    case Start(p, kind) =>
      if p in s.lookups then s else s.(lookups := s.lookups[p := Lookup(kind, s.invalidatedAt, Started)])
    case FastRead(p) => AfterFastRead(s, p)
    case Acquire(p) => AfterAcquire(underLock, s, p)
    case FindDefault(p, ok) => AfterFind(underLock, s, p, ok)
    case Store(p) => AfterStore(s, p)
    case ChangeDefault(_) => s
    case Invalidate => if s.lock.Some? then s else s.(cache := Unresolved, invalidatedAt := |s.history|)
  }

  /** Every step takes one unit of time; only ChangeDefault changes the
      database. */
  function Apply(underLock: bool, s: State, step: Step): State
    requires s.history != []
  {
    var next := Effect(underLock, s, step);
    next.(history := s.history + [if step.ChangeDefault? then step.value else Current(s)])
  }

  function Run(underLock: bool, s: State, steps: seq<Step>): (last: State)
    requires s.history != []
    ensures last.history != []
    decreases |steps|
  {
    if steps == [] then s else Run(underLock, Apply(underLock, s, steps[0]), steps[1..])
  }

  /** value was the default at time readAt, not before since. */
  predicate WasDefault(s: State, value: Option<Id>, readAt: nat, since: nat) {
    since <= readAt < |s.history| && s.history[readAt] == value
  }

  /** Every finished lookup answered with a default of the database at a time
      not before the last invalidation that came before its start. */
  ghost predicate Fresh(s: State) {
    forall p :: p in s.lookups && s.lookups[p].phase.Done? && s.lookups[p].phase.answer.Answer? ==>
      WasDefault(s, s.lookups[p].phase.answer.value, s.lookups[p].phase.answer.readAt, s.lookups[p].since)
  }

  // ----- With the read under the lock the cache is coherent -----

  ghost predicate LookupOk(s: State, p: nat)
    requires p in s.lookups
  {
    var x := s.lookups[p];
    && x.since <= s.invalidatedAt
    && !x.phase.Fetched?
    && (x.phase.Locked? ==> s.lock == Some(p))
    && (x.phase.Found? ==> s.lock == Some(p) && WasDefault(s, x.phase.value, x.phase.readAt, s.invalidatedAt))
    && (x.phase.Done? && x.phase.answer.Answer? ==> WasDefault(s, x.phase.answer.value, x.phase.answer.readAt, x.since))
  }

  ghost predicate Invariant(s: State) {
    && s.history != [] && s.invalidatedAt <= |s.history| - 1
    && (s.cache.Resolved? ==> WasDefault(s, s.cache.value, s.cache.readAt, s.invalidatedAt))
    && forall p :: p in s.lookups ==> LookupOk(s, p)
  }

  /** Between s and next only lookup p moves: the database goes on, the others
      keep the lock, and an invalidation needs the lock to be free. */
  ghost predicate OnlyMoves(s: State, next: State, p: nat) {
    && s.history != [] && next.history != [] && next.history[..|next.history| - 1] == s.history
    && (forall q :: q in next.lookups && q != p ==> q in s.lookups && next.lookups[q] == s.lookups[q])
    && (s.lock.Some? && s.lock.value != p ==> next.lock == s.lock)
    && (next.invalidatedAt == s.invalidatedAt || (s.lock.None? && next.invalidatedAt == |s.history|))
  }

  lemma PastStays(s: State, next: State, value: Option<Id>, readAt: nat, since: nat)
    requires s.history != [] && next.history != [] && next.history[..|next.history| - 1] == s.history
    requires WasDefault(s, value, readAt, since)
    ensures WasDefault(next, value, readAt, since)
  {
    assert next.history[readAt] == next.history[..|next.history| - 1][readAt];
  }

  lemma BystanderStaysOk(s: State, next: State, p: nat, q: nat)
    requires OnlyMoves(s, next, p) && q in s.lookups && LookupOk(s, q) && s.invalidatedAt <= |s.history|
    requires q in next.lookups && next.lookups[q] == s.lookups[q]
    requires s.lookups[q].phase.Locked? || s.lookups[q].phase.Found? ==> next.lock == s.lock
    ensures LookupOk(next, q)
  {
    var x := s.lookups[q];
    if x.phase.Found? {
      PastStays(s, next, x.phase.value, x.phase.readAt, s.invalidatedAt);
    } else if x.phase.Done? && x.phase.answer.Answer? {
      PastStays(s, next, x.phase.answer.value, x.phase.answer.readAt, x.since);
    }
  }

  lemma InvariantStays(s: State, next: State, p: nat)
    requires Invariant(s) && OnlyMoves(s, next, p) && (p in next.lookups ==> LookupOk(next, p))
    requires next.cache.Resolved? ==> WasDefault(next, next.cache.value, next.cache.readAt, next.invalidatedAt)
    ensures Invariant(next)
  {
    assert |next.history| == |s.history| + 1;
    forall q | q in next.lookups && q != p ensures LookupOk(next, q) {
      assert LookupOk(s, q);
      BystanderStaysOk(s, next, p, q);
    }
  }

  /** The mover of a step; changes and invalidations move no lookup. */
  function Mover(step: Step): nat {
    match step
    case ChangeDefault(_) => 0
    case Invalidate => 0
    case _ => step.p
  }

  lemma StepMoves(s: State, step: Step)
    requires Invariant(s)
    ensures OnlyMoves(s, Apply(true, s, step), Mover(step))
  {
    var p := Mover(step);
    if p in s.lookups { assert LookupOk(s, p); }
  }

  lemma CacheStays(s: State, step: Step)
    requires Invariant(s) && OnlyMoves(s, Apply(true, s, step), Mover(step))
    ensures var next := Apply(true, s, step);
      next.cache.Resolved? ==> WasDefault(next, next.cache.value, next.cache.readAt, next.invalidatedAt)
  {
    var next := Apply(true, s, step);
    if next.cache.Resolved? {
      if step.Store? && step.p in s.lookups { assert LookupOk(s, step.p); }
      assert WasDefault(s, next.cache.value, next.cache.readAt, s.invalidatedAt);
      PastStays(s, next, next.cache.value, next.cache.readAt, s.invalidatedAt);
    }
  }

  lemma MoverStaysOk(s: State, step: Step)
    requires Invariant(s) && OnlyMoves(s, Apply(true, s, step), Mover(step))
    requires Mover(step) in Apply(true, s, step).lookups
    ensures LookupOk(Apply(true, s, step), Mover(step))
  {
    var next, p := Apply(true, s, step), Mover(step);
    if p in s.lookups {
      assert LookupOk(s, p);
      if next.lookups[p] == s.lookups[p] {
        BystanderStaysOk(s, next, p, p);
      } else {
        MovedLookupIsOk(s, step);
      }
    }
  }

  lemma MovedLookupIsOk(s: State, step: Step)
    requires Invariant(s) && OnlyMoves(s, Apply(true, s, step), Mover(step))
    requires !step.ChangeDefault? && !step.Invalidate? && step.p in s.lookups && LookupOk(s, step.p)
    requires Apply(true, s, step).lookups[step.p] != s.lookups[step.p]
    ensures LookupOk(Apply(true, s, step), step.p)
  {
    var next, x := Apply(true, s, step), s.lookups[step.p];
    if step.FindDefault? {
      PastStays(s, next, Current(s), Now(s), s.invalidatedAt);
    } else if step.Store? {
      PastStays(s, next, x.phase.value, x.phase.readAt, s.invalidatedAt);
    } else if s.cache.Resolved? {
      PastStays(s, next, s.cache.value, s.cache.readAt, s.invalidatedAt);
    }
  }

  lemma StepKeepsInvariant(s: State, step: Step)
    requires Invariant(s)
    ensures Invariant(Apply(true, s, step))
  {
    var next, p := Apply(true, s, step), Mover(step);
    StepMoves(s, step);
    CacheStays(s, step);
    if p in next.lookups { MoverStaysOk(s, step); }
    InvariantStays(s, next, p);
  }

  lemma {:induction false} RunKeepsInvariant(s: State, steps: seq<Step>)
    requires Invariant(s)
    ensures Invariant(Run(true, s, steps))
    decreases |steps|
  {
    if steps != [] {
      StepKeepsInvariant(s, steps[0]);
      RunKeepsInvariant(Apply(true, s, steps[0]), steps[1..]);
    }
  }

  function Initial(value: Option<Id>): State {
    State([value], Unresolved, None, 0, map[])
  }

  /** SetDefault committed by time changed, InvalidateDefault returned after
      it, then the lookup started: it never yields an earlier default. While
      the default stays the same, it yields exactly that one. */
  lemma LookupSeesTheChange(value: Option<Id>, steps: seq<Step>, p: nat, changed: nat, newDefault: Option<Id>)
    requires var s := Run(true, Initial(value), steps);
      && p in s.lookups && s.lookups[p].phase.Done? && s.lookups[p].phase.answer.Answer?
      && changed <= s.lookups[p].since
      && forall t :: changed <= t < |s.history| ==> s.history[t] == newDefault
    ensures Run(true, Initial(value), steps).lookups[p].phase.answer.value == newDefault
  {
    RunKeepsInvariant(Initial(value), steps);
    assert LookupOk(Run(true, Initial(value), steps), p);
  }

  // ----- Without it, it is not -----

  function StaleRun(newDefault: Option<Id>): seq<Step> {
    [Start(0, Resolving), FastRead(0), FindDefault(0, true)]
    + [ChangeDefault(newDefault), Invalidate, Acquire(0)]
    + [Store(0), Start(1, Resolving), FastRead(1)]
  }

  lemma RunThree(underLock: bool, s: State, a: Step, b: Step, c: Step, rest: seq<Step>)
    requires s.history != []
    ensures Run(underLock, s, [a, b, c] + rest) ==
      Run(underLock, Apply(underLock, Apply(underLock, Apply(underLock, s, a), b), c), rest)
  {
    var t := [a, b, c] + rest;
    assert t[1..] == [b, c] + rest && t[1..][1..] == [c] + rest && t[1..][1..][1..] == rest;
    var s1 := Apply(underLock, s, a);
    var s2 := Apply(underLock, s1, b);
    assert Run(underLock, s2, [c] + rest) == Run(underLock, Apply(underLock, s2, c), rest);
    assert Run(underLock, s1, [b, c] + rest) == Run(underLock, s2, [c] + rest);
  }

  lemma StaleFetch(o: Option<Id>)
    ensures var s := Initial(o);
      Apply(false, Apply(false, Apply(false, s, Start(0, Resolving)), FastRead(0)), FindDefault(0, true)) ==
        State([o, o, o, o], Unresolved, None, 0, map[0 := Lookup(Resolving, 0, Fetched(o, 2))])
  {}

  lemma StaleAcquire(o: Option<Id>, n: Option<Id>)
    ensures var s := State([o, o, o, o], Unresolved, None, 0, map[0 := Lookup(Resolving, 0, Fetched(o, 2))]);
      Apply(false, Apply(false, Apply(false, s, ChangeDefault(n)), Invalidate), Acquire(0)) ==
        State([o, o, o, o, n, n, n], Unresolved, Some(0), 5, map[0 := Lookup(Resolving, 0, Found(o, 2))])
  {}

  lemma StaleHit(o: Option<Id>, n: Option<Id>)
    ensures var s := State([o, o, o, o, n, n, n], Unresolved, Some(0), 5, map[0 := Lookup(Resolving, 0, Found(o, 2))]);
      var last := Apply(false, Apply(false, Apply(false, s, Store(0)), Start(1, Resolving)), FastRead(1));
      && 1 in last.lookups && last.lookups[1] == Lookup(Resolving, 5, Done(Answer(o, 2)))
      && last.history == [o, o, o, o, n, n, n, n, n, n]
  {}

  /** A read before the lock can store an old default after the invalidation:
      a lookup that starts later answers with o, although the default has been
      n since before the invalidation. */
  lemma ReadOutsideTheLockGoesStale(o: Option<Id>, n: Option<Id>)
    ensures var s := Run(false, Initial(o), StaleRun(n));
      && 1 in s.lookups && s.lookups[1].phase == Done(Answer(o, 2))
      && (forall t :: s.lookups[1].since <= t < |s.history| ==> s.history[t] == n)
      && !Fresh(s)
  {
    StaleFetch(o);
    StaleAcquire(o, n);
    StaleHit(o, n);
    var last3 := [Store(0), Start(1, Resolving), FastRead(1)];
    var last6 := [ChangeDefault(n), Invalidate, Acquire(0)] + last3;
    assert StaleRun(n) == [Start(0, Resolving), FastRead(0), FindDefault(0, true)] + last6;
    RunThree(false, Initial(o), Start(0, Resolving), FastRead(0), FindDefault(0, true), last6);
    var s3 := State([o, o, o, o], Unresolved, None, 0, map[0 := Lookup(Resolving, 0, Fetched(o, 2))]);
    RunThree(false, s3, ChangeDefault(n), Invalidate, Acquire(0), last3);
    var s6 := State([o, o, o, o, n, n, n], Unresolved, Some(0), 5, map[0 := Lookup(Resolving, 0, Found(o, 2))]);
    assert last3 == last3 + [];
    RunThree(false, s6, Store(0), Start(1, Resolving), FastRead(1), []);
  }

  ghost predicate AlwaysFresh(underLock: bool) {
    forall value: Option<Id>, steps: seq<Step> :: Fresh(Run(underLock, Initial(value), steps))
  }

  /** The cache is coherent for every number of lookups and writers exactly
      because the database read runs under the write lock. */
  lemma CoherentBecauseOfTheLock(underLock: bool)
    ensures AlwaysFresh(underLock) <==> underLock
  {
    if underLock {
      forall value: Option<Id>, steps: seq<Step> ensures Fresh(Run(true, Initial(value), steps)) {
        RunKeepsInvariant(Initial(value), steps);
        var s := Run(true, Initial(value), steps);
        assert forall p :: p in s.lookups ==> LookupOk(s, p);
      }
    } else {
      ReadOutsideTheLockGoesStale(Some(1), Some(2));
    }
  }

  // ----- The code -----

  datatype FindResult = Row(id: Id) | NotFound | Transient

  class ClusterRepository {
    /** Cluster id to is_default. */
    var clusters: map<Id, bool>

    ghost predicate AtMostOneDefault()
      reads this
    {
      forall a, b :: a in clusters && b in clusters && clusters[a] && clusters[b] ==> a == b
    }

    constructor (clusters: map<Id, bool>)
      ensures this.clusters == clusters
    {
      this.clusters := clusters;
    }

    /** Unset every default, then set the target; a missing target rolls back. */
    method SetDefault(id: Id) returns (found: bool)
      modifies this
      ensures found <==> id in old(clusters)
      ensures !found ==> clusters == old(clusters)
      ensures clusters.Keys == old(clusters).Keys
      ensures found ==> AtMostOneDefault() && clusters[id]
    {
      var savepoint := clusters;
      var existing := exists c :: c in clusters && clusters[c];
      if existing {
        clusters := map c | c in clusters :: false;
      }
      if id !in clusters {
        clusters := savepoint;
        return false;
      }
      clusters := clusters[id := true];
      return true;
    }
  }

  datatype Resolution = Cluster(id: Id) | NoDefault | Error

  // ----- The code of the registry is the machine -----

  /** A lookup that no other step interrupts. */
  function LookupAlone(p: nat, kind: Kind, ok: bool): seq<Step> {
    [Start(p, kind), FastRead(p), Acquire(p)] + [FindDefault(p, ok), Store(p)]
  }

  lemma RunTwo(underLock: bool, s: State, a: Step, b: Step)
    requires s.history != []
    ensures Run(underLock, s, [a, b]) == Apply(underLock, Apply(underLock, s, a), b)
  {
    assert [a, b][1..] == [b] && [b][1..] == [];
    var s1 := Apply(underLock, s, a);
    assert Run(underLock, s1, [b]) == Run(underLock, Apply(underLock, s1, b), []);
  }

  /** Its answer and the cache that it leaves. */
  lemma LookupAloneAnswers(s: State, p: nat, ok: bool)
    requires s.history != [] && s.lock.None? && p !in s.lookups
    ensures var last := Run(true, s, LookupAlone(p, Resolving, ok));
      && p in last.lookups && last.lookups[p].phase.Done? && last.lock.None?
      && var answer := last.lookups[p].phase.answer;
         if s.cache.Resolved? then answer == Answer(s.cache.value, s.cache.readAt) && last.cache == s.cache
         else if ok then answer == Answer(Current(s), Now(s) + 3) && last.cache == Resolved(Current(s), Now(s) + 3)
         else answer == Failed && last.cache == Unresolved
  {
    var s1 := Apply(true, s, Start(p, Resolving));
    assert s1.lookups[p] == Lookup(Resolving, s.invalidatedAt, Started);
    var s2 := Apply(true, s1, FastRead(p));
    var s3 := Apply(true, s2, Acquire(p));
    RunThree(true, s, Start(p, Resolving), FastRead(p), Acquire(p), [FindDefault(p, ok), Store(p)]);
    assert Current(s3) == Current(s) && Now(s3) == Now(s) + 3;
    RunTwo(true, s3, FindDefault(p, ok), Store(p));
    var s4 := Apply(true, s3, FindDefault(p, ok));
    if s.cache.Unresolved? && ok {
      assert s4.lookups[p].phase == Found(Current(s), Now(s) + 3);
    }
  }

  /** A lookup of the registry configuration answers alike, but it does not
      remember that there is no default. */
  lemma RegistryConfigAlone(s: State, p: nat, ok: bool)
    requires s.history != [] && s.lock.None? && p !in s.lookups
    ensures var last := Run(true, s, LookupAlone(p, RegistryConfig, ok));
      && p in last.lookups && last.lookups[p].phase.Done? && last.lock.None?
      && var answer := last.lookups[p].phase.answer;
         if s.cache.Resolved? then answer == Answer(s.cache.value, s.cache.readAt) && last.cache == s.cache
         else if !ok then answer == Failed && last.cache == Unresolved
         else
           && answer == Answer(Current(s), Now(s) + 3)
           && last.cache == if Current(s).Some? then Resolved(Current(s), Now(s) + 3) else Unresolved
  {
    var s1 := Apply(true, s, Start(p, RegistryConfig));
    assert s1.lookups[p] == Lookup(RegistryConfig, s.invalidatedAt, Started);
    var s2 := Apply(true, s1, FastRead(p));
    var s3 := Apply(true, s2, Acquire(p));
    RunThree(true, s, Start(p, RegistryConfig), FastRead(p), Acquire(p), [FindDefault(p, ok), Store(p)]);
    assert Current(s3) == Current(s) && Now(s3) == Now(s) + 3;
    RunTwo(true, s3, FindDefault(p, ok), Store(p));
    var s4 := Apply(true, s3, FindDefault(p, ok));
    if s.cache.Unresolved? && ok {
      assert s4.lookups[p].phase == Found(Current(s), Now(s) + 3);
    }
  }

  /** A change of the default is in the database from the next instant on. */
  lemma ChangeTakesEffect(s: State, value: Option<Id>)
    requires s.history != []
    ensures var next := Apply(true, s, ChangeDefault(value));
      Current(next) == value && next.cache == s.cache && next.lookups == s.lookups && next.lock == s.lock
  {}

  /** After an invalidation a lookup asks the database, whatever the cache
      held. */
  lemma InvalidationForcesARead(s: State, p: nat)
    requires s.history != [] && s.lock.None? && p !in s.lookups
    ensures var last := Run(true, Apply(true, s, Invalidate), LookupAlone(p, Resolving, true));
      && p in last.lookups && last.lookups[p].phase.Done?
      && last.lookups[p].phase.answer == Answer(Current(s), Now(s) + 4)
      && last.cache == Resolved(Current(s), Now(s) + 4)
  {
    var next := Apply(true, s, Invalidate);
    assert Current(next) == Current(s) && Now(next) == Now(s) + 1;
    LookupAloneAnswers(next, p, true);
  }

  /** The fields of the registry hold the cache of the machine. */
  predicate Holds(resolved: bool, id: Option<Id>, cache: Cache) {
    if resolved then cache.Resolved? && cache.value == id else cache.Unresolved?
  }

  predicate IsAnswerOf(found: FindResult, value: Option<Id>) {
    match found
    case Row(id) => value == Some(id)
    case NotFound => value == None
    case Transient => true
  }

  predicate Means(r: Resolution, a: Answer) {
    match r
    case Cluster(id) => a.Answer? && a.value == Some(id)
    case NoDefault => a.Answer? && a.value == None
    case Error => a.Failed?
  }

  /** From a state of the machine with the cache before, a lookup that gets the
      answer found leaves the cache after and answers r. */
  ghost predicate IsLookup(s: State, p: nat, found: FindResult, resolved: bool, id: Option<Id>, r: Resolution) {
    s.history != [] && s.lock.None? && p !in s.lookups && IsAnswerOf(found, Current(s)) ==>
      var last := Run(true, s, LookupAlone(p, Resolving, found != Transient));
      && Holds(resolved, id, last.cache)
      && p in last.lookups && last.lookups[p].phase.Done? && Means(r, last.lookups[p].phase.answer)
  }

  class Registry {
    var defaultResolved: bool
    var defaultId: Option<Id>

    constructor ()
      ensures !defaultResolved && defaultId == None
    {
      defaultResolved, defaultId := false, None;
    }

    /** ResolveClusterID of an empty id; found is what the database answers if
        it is asked under the lock. */
    method ResolveDefault(found: FindResult) returns (r: Resolution)
      modifies this
      ensures old(defaultResolved) ==> unchanged(this)
      ensures found == Transient && !old(defaultResolved) ==> r == Error && unchanged(this)
      ensures defaultResolved ==> r == (if defaultId.Some? then Cluster(defaultId.value) else NoDefault)
      ensures !old(defaultResolved) && found != Transient ==>
        defaultResolved && r == (if found.Row? then Cluster(found.id) else NoDefault)
      ensures forall s: State, p: nat :: Holds(old(defaultResolved), old(defaultId), s.cache) ==>
        IsLookup(s, p, found, defaultResolved, defaultId, r)
    {
      ghost var resolved, id := defaultResolved, defaultId;
      if defaultResolved {
        r := if defaultId.None? then NoDefault else Cluster(defaultId.value);
      } else {
        match found {
          case Transient =>
            r := Error;
          case NotFound =>
            defaultResolved, defaultId := true, None;
            r := NoDefault;
          case Row(cluster) =>
            defaultResolved, defaultId := true, Some(cluster);
            r := Cluster(cluster);
        }
      }
      forall s: State, p: nat | Holds(resolved, id, s.cache)
        ensures IsLookup(s, p, found, defaultResolved, defaultId, r)
      {
        if s.history != [] && s.lock.None? && p !in s.lookups {
          LookupAloneAnswers(s, p, found != Transient);
        }
      }
    }

    method InvalidateDefault()
      modifies this
      ensures forall s: State :: s.history != [] && s.lock.None? ==>
        Holds(defaultResolved, defaultId, Apply(true, s, Invalidate).cache)
      ensures !defaultResolved && defaultId == None
    {
      defaultResolved, defaultId := false, None;
    }
  }
}
