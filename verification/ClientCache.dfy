/** The cached clients of one cluster in one process: a lookup with a
    read-locked fast path, the read of the cluster row and the build of the
    clients outside the lock, and a brief write lock to store them. Row changes
    by anyone, and InvalidateClient. */
module ClientCache {
  import opened Keys

  /** A version of the cluster row; None when the cluster is missing. */
  type Row = int

  /** The clients with the row they were built from and the time of its read. */
  datatype Clients = Clients(row: Row, readAt: nat)

  datatype Phase =
    | Started
    | Missed
    | Fetched(clients: Clients)
    | Done(clients: Clients)
    | Failed

  /** since is the time of the last invalidation before the lookup started. */
  datatype Lookup = Lookup(since: nat, phase: Phase)

  /** history[t] is the row at time t; the last entry is the current one. */
  datatype State = State(
    history: seq<Option<Row>>, cache: Option<Clients>, invalidatedAt: nat, lookups: map<int, Lookup>)

  datatype Step =
    | Start(p: int)
    | FastRead(p: int)
    | Fetch(p: int, built: bool)
    | Store(p: int)
    | ChangeRow(row: Option<Row>)
    | Invalidate

  predicate In(s: State, p: int, phase: Phase) {
    p in s.lookups && s.lookups[p].phase == phase
  }

  function Move(s: State, p: int, phase: Phase): State
    requires p in s.lookups
  {
    s.(lookups := s.lookups[p := s.lookups[p].(phase := phase)])
  }

  /** findByID and buildClients, outside the lock. */
  function AfterFetch(s: State, p: int, built: bool): State
    requires s.history != []
  {
    var now := |s.history| - 1;
    if !In(s, p, Missed) then s
    else if s.history[now].None? || !built then Move(s, p, Failed)
    else Move(s, p, Fetched(Clients(s.history[now].value, now)))
  }

  /** The write lock: the first stored clients win. */
  function AfterStore(s: State, p: int): State {
    if p !in s.lookups || !s.lookups[p].phase.Fetched? then s
    else if s.cache.Some? then Move(s, p, Done(s.cache.value))
    else Move(s, p, Done(s.lookups[p].phase.clients)).(cache := Some(s.lookups[p].phase.clients))
  }

  function Effect(s: State, step: Step): State
    requires s.history != []
  {
    match step
    case Start(p) => if p in s.lookups then s else s.(lookups := s.lookups[p := Lookup(s.invalidatedAt, Started)])
    case FastRead(p) =>
      if !In(s, p, Started) then s
      else if s.cache.Some? then Move(s, p, Done(s.cache.value)) else Move(s, p, Missed)
    case Fetch(p, built) => AfterFetch(s, p, built)
    case Store(p) => AfterStore(s, p)
    case ChangeRow(_) => s
    case Invalidate => s.(cache := None, invalidatedAt := |s.history|)
  }

  /** Every step takes one unit of time; only ChangeRow changes the row. */
  function Apply(s: State, step: Step): (next: State)
    requires s.history != []
    ensures next.history != []
  {
    Effect(s, step).(history := s.history + [if step.ChangeRow? then step.row else s.history[|s.history| - 1]])
  }

  function Run(s: State, steps: seq<Step>): State
    requires s.history != []
    decreases |steps|
  {
    if steps == [] then s else Run(Apply(s, steps[0]), steps[1..])
  }

  // ----- What always holds -----

  /** The clients were built from the row of their time. */
  predicate WereBuilt(s: State, c: Clients) {
    c.readAt < |s.history| && s.history[c.readAt] == Some(c.row)
  }

  /** A lookup reads the row itself only after it started. */
  predicate LookupOk(s: State, p: int)
    requires p in s.lookups
  {
    var x := s.lookups[p];
    && x.since <= s.invalidatedAt
    && (x.phase.Fetched? ==> WereBuilt(s, x.phase.clients) && x.phase.clients.readAt >= x.since)
    && (x.phase.Done? ==> WereBuilt(s, x.phase.clients))
  }

  /** The last invalidation is over when the next step starts. */
  ghost predicate Invariant(s: State) {
    && s.history != [] && s.invalidatedAt < |s.history|
    && (s.cache.Some? ==> WereBuilt(s, s.cache.value))
    && forall p :: p in s.lookups ==> LookupOk(s, p)
  }

  lemma BuiltStays(s: State, step: Step, c: Clients)
    requires s.history != [] && WereBuilt(s, c)
    ensures WereBuilt(Apply(s, step), c)
  {}

  lemma StepKeepsInvariant(s: State, step: Step)
    requires Invariant(s)
    ensures Invariant(Apply(s, step))
  {
    var next := Apply(s, step);
    forall c | WereBuilt(s, c) ensures WereBuilt(next, c) { BuiltStays(s, step, c); }
    forall p | p in next.lookups ensures LookupOk(next, p) {
      if p in s.lookups { assert LookupOk(s, p); }
    }
    if step.Store? && step.p in s.lookups { assert LookupOk(s, step.p); }
  }

  // ----- Freshness -----

  /** The lookup did not answer with clients from before the invalidation that
      it came after. */
  predicate IsFresh(x: Lookup) {
    x.phase.Done? ==> x.phase.clients.readAt >= x.since
  }

  ghost predicate AllFresh(s: State) {
    forall p :: p in s.lookups ==> IsFresh(s.lookups[p])
  }

  /** The cache holds no clients from before the last invalidation. */
  predicate IsCoherent(s: State) {
    s.cache.Some? ==> s.cache.value.readAt >= s.invalidatedAt
  }

  /** A lookup stores clients that it read before the last invalidation. */
  predicate StoresStale(s: State, step: Step) {
    && step.Store? && step.p in s.lookups && s.lookups[step.p].phase.Fetched?
    && s.cache.None? && s.lookups[step.p].phase.clients.readAt < s.invalidatedAt
  }

  /** Exactly such a store makes the cache incoherent; the lookup itself is
      still fresh, because it started before the invalidation. */
  lemma StepKeepsCoherence(s: State, step: Step)
    requires Invariant(s) && IsCoherent(s) && AllFresh(s)
    ensures IsCoherent(Apply(s, step)) <==> !StoresStale(s, step)
    ensures AllFresh(Apply(s, step))
  {
    var next := Apply(s, step);
    forall p | p in next.lookups ensures IsFresh(next.lookups[p]) {
      if p in s.lookups { assert LookupOk(s, p) && IsFresh(s.lookups[p]); }
    }
  }

  /** What a lookup that starts now and hits the cache answers. */
  function NextLookup(s: State, p: int): State
    requires s.history != []
  {
    Apply(Apply(s, Start(p)), FastRead(p))
  }

  /** A lookup that starts now can answer with clients from before the last
      invalidation. */
  ghost predicate AnswersStale(s: State)
    requires s.history != []
  {
    exists p :: p !in s.lookups && p in NextLookup(s, p).lookups && !IsFresh(NextLookup(s, p).lookups[p])
  }

  predicate IsAbove(p: int, used: set<int>) {
    forall q :: q in used ==> q < p
  }

  lemma Member<T>(s: set<T>) returns (x: T)
    requires s != {}
    ensures x in s
  {
    x :| x in s;
  }

  lemma {:induction false} NewCall(used: set<int>) returns (p: int)
    ensures IsAbove(p, used) && p !in used
  {
    p := 0;
    if used != {} {
      var q := Member(used);
      var rest := used - {q};
      var above := NewCall(rest);
      p := if q < above then above else q + 1;
      forall x | x in used ensures x < p {
        assert x == q || x in rest;
      }
    }
  }

  lemma IncoherentMeansStale(s: State)
    requires Invariant(s)
    ensures AnswersStale(s) <==> !IsCoherent(s)
  {
    if !IsCoherent(s) {
      var p := NewCall(s.lookups.Keys);
      assert NextLookup(s, p).lookups[p] == Lookup(s.invalidatedAt, Done(s.cache.value));
    }
  }

  /** At no point of the run has a lookup answered stale, and no lookup that
      starts then would. */
  ghost predicate NeverStale(s: State, steps: seq<Step>)
    requires s.history != []
    decreases |steps|
  {
    && AllFresh(s) && !AnswersStale(s)
    && (steps != [] ==> NeverStale(Apply(s, steps[0]), steps[1..]))
  }

  ghost predicate NoStaleStore(s: State, steps: seq<Step>)
    requires s.history != []
    decreases |steps|
  {
    steps != [] ==> !StoresStale(s, steps[0]) && NoStaleStore(Apply(s, steps[0]), steps[1..])
  }

  /** The rule is exact: no lookup answers stale, at any point of the run, if and
      only if no lookup stores clients from before the last invalidation. */
  lemma {:induction false} StaleExactlyByAStaleStore(s: State, steps: seq<Step>)
    requires Invariant(s) && IsCoherent(s) && AllFresh(s)
    ensures NeverStale(s, steps) <==> NoStaleStore(s, steps)
    decreases |steps|
  {
    IncoherentMeansStale(s);
    if steps != [] {
      var next := Apply(s, steps[0]);
      StepKeepsInvariant(s, steps[0]);
      StepKeepsCoherence(s, steps[0]);
      if !StoresStale(s, steps[0]) {
        StaleExactlyByAStaleStore(next, steps[1..]);
      } else {
        IncoherentMeansStale(next);
      }
    }
  }

  function Initial(row: Option<Row>): State {
    State([row], None, 0, map[])
  }

  /** The run: a slow lookup reads the row, the row changes and the clients are
      invalidated, then the lookup stores what it built. A later lookup gets the
      clients of the old row, and so do all until the next invalidation. */
  lemma SlowLookupStoresOldClients(a: Row, b: Row)
    ensures var t := [Start(0), FastRead(0), Fetch(0, true), ChangeRow(Some(b)), Invalidate, Store(0)];
      var last := Run(Initial(Some(a)), t);
      && last.history != [] && last.history[|last.history| - 1] == Some(b)
      && last.cache == Some(Clients(a, 2)) && last.invalidatedAt == 5
      && AnswersStale(last)
  {
    var t := [Start(0), FastRead(0), Fetch(0, true), ChangeRow(Some(b)), Invalidate, Store(0)];
    var s0 := Initial(Some(a));
    RunThree(s0, t);
    RunThree(FetchedOld(a), t[3..]);
    assert t[3..][3..] == [];
    SlowFetch(a);
    SlowStore(a, b);
  }

  /** A lookup that has built clients from row a. */
  function FetchedOld(a: Row): State {
    State([Some(a), Some(a), Some(a), Some(a)], None, 0, map[0 := Lookup(0, Fetched(Clients(a, 2)))])
  }

  lemma SlowFetch(a: Row)
    ensures Apply(Apply(Apply(Initial(Some(a)), Start(0)), FastRead(0)), Fetch(0, true)) == FetchedOld(a)
  {}

  lemma SlowStore(a: Row, b: Row)
    ensures var last := Apply(Apply(Apply(FetchedOld(a), ChangeRow(Some(b))), Invalidate), Store(0));
      && last.history == [Some(a), Some(a), Some(a), Some(a), Some(b), Some(b), Some(b)]
      && last.cache == Some(Clients(a, 2)) && last.invalidatedAt == 5 && AnswersStale(last)
  {
    var last := Apply(Apply(Apply(FetchedOld(a), ChangeRow(Some(b))), Invalidate), Store(0));
    assert NextLookup(last, 1).lookups[1] == Lookup(5, Done(Clients(a, 2)));
  }

  lemma RunThree(s: State, t: seq<Step>)
    requires s.history != [] && |t| >= 3
    ensures Run(s, t) == Run(Apply(Apply(Apply(s, t[0]), t[1]), t[2]), t[3..])
  {
    assert t[1..][0] == t[1] && t[1..][1..] == t[2..] && t[2..][0] == t[2] && t[2..][1..] == t[3..];
    var s1 := Apply(s, t[0]);
    assert Run(s1, t[1..]) == Run(Apply(s1, t[1]), t[2..]);
    assert Run(Apply(s1, t[1]), t[2..]) == Run(Apply(Apply(s1, t[1]), t[2]), t[3..]);
  }

  /** Nothing but an invalidation replaces what the cache holds. */
  lemma {:induction false} CacheStaysUntilInvalidated(s: State, steps: seq<Step>)
    requires s.history != [] && s.cache.Some? && Invalidate !in steps
    ensures Run(s, steps).cache == s.cache
    decreases |steps|
  {
    if steps != [] {
      assert steps[0] in steps;
      CacheStaysUntilInvalidated(Apply(s, steps[0]), steps[1..]);
    }
  }

  /** A lookup that nothing interrupts: a hit answers with the cache, a miss
      reads the row, and stores and answers with the clients of that row. */
  lemma LookupAlone(s: State, p: int, built: bool)
    requires s.history != [] && p !in s.lookups
    ensures var hit := Apply(Apply(s, Start(p)), FastRead(p));
      var last := Apply(Apply(hit, Fetch(p, built)), Store(p));
      var row := s.history[|s.history| - 1];
      && p in hit.lookups && p in last.lookups
      && (s.cache.Some? ==> hit.lookups[p].phase == Done(s.cache.value) && last.cache == s.cache)
      && (s.cache.None? && row.Some? && built ==>
            var clients := Clients(row.value, |s.history| + 1);
            last.lookups[p].phase == Done(clients) && last.cache == Some(clients))
      && (s.cache.None? && (row.None? || !built) ==> last.lookups[p].phase == Failed && last.cache == None)
  {
    var s1 := Apply(s, Start(p));
    assert s1.lookups[p] == Lookup(s.invalidatedAt, Started);
    var s2 := Apply(s1, FastRead(p));
    assert s2.history[|s2.history| - 1] == s.history[|s.history| - 1] && |s2.history| == |s.history| + 2;
    var s3 := Apply(s2, Fetch(p, built));
    assert s3.cache == s.cache;
  }

  /** An invalidation empties the cache, and a row change is visible from the
      next instant on. */
  lemma OtherStepsTakeEffect(s: State, row: Option<Row>)
    requires s.history != []
    ensures Apply(s, Invalidate).cache == None && Apply(s, Invalidate).lookups == s.lookups
    ensures var next := Apply(s, ChangeRow(row));
      next.history[|next.history| - 1] == row && next.cache == s.cache && next.lookups == s.lookups
  {}

  // ----- The code -----

  class ClientRegistry {
    /** Cluster id to the clients built from a row. */
    var clients: map<int, Row>

    constructor ()
      ensures clients == map[]
    {
      clients := map[];
    }

    /** read is what findByID and buildClients give, None for an error; between
        holds the cache as other lookups and invalidations leave it during that
        time. A success answers with what the cache holds, and the first stored
        clients win. */
    method GetClients(id: int, read: Option<Row>, between: map<int, Row>) returns (r: Option<Row>)
      modifies this
      ensures id in old(clients) ==> clients == old(clients)
      ensures id !in old(clients) ==> clients - {id} == between - {id}
      ensures id !in old(clients) && id in between ==> id in clients && clients[id] == between[id]
      ensures id !in old(clients) && id !in between ==> (id in clients <==> read.Some?)
      ensures id !in old(clients) && id !in between && read.Some? ==> clients[id] == read.value
      ensures id in old(clients) || read.Some? ==> id in clients && r == Some(clients[id])
      ensures id !in old(clients) && read.None? ==> r == None
    {
      if id in clients {
        return Some(clients[id]);
      }
      clients := between;
      if read.None? {
        return None;
      }
      if id in clients {
        return Some(clients[id]);
      }
      clients := clients[id := read.value];
      return read;
    }

    method InvalidateClient(id: int)
      modifies this
      ensures id !in clients && clients == old(clients) - {id}
    {
      if id in clients {
        clients := clients - {id};
      }
    }
  }
}
