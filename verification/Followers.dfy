/** Follow and instance delete transactions over the instance row lock. Locks
    are held to commit; the effects of a transaction appear at its commit.
    Gap locks on the follower table are not used in the argument. */
module Followers {

  /** User and instance ids: UUIDs of which only equality matters. */
  type Id = int

  datatype Follower = Follower(user: Id, instance: Id)

  /** What the two transactions promise: Follow reads the instance row with a
      shared lock, and the delete removes the instance row before it removes
      the followers. */
  datatype Discipline = Discipline(sharedLock: bool, rowFirst: bool)

  /** A running transaction. A follow is past its read when found is true; a
      delete has the exclusive row lock when locked is true, and doomed holds
      the follower rows that its second statement removed. */
  datatype Tx =
    | Follow(user: Id, instance: Id, found: bool)
    | Delete(instance: Id, locked: bool, swept: bool, doomed: set<Follower>)

  datatype State = State(instances: set<Id>, issued: set<Id>, followers: set<Follower>, txs: map<nat, Tx>)

  datatype Step =
    | BeginFollow(p: nat, user: Id, instance: Id)
    | ReadInstance(p: nat)
    | CommitFollow(p: nat)
    | BeginDelete(p: nat, instance: Id)
    | DeleteRow(p: nat)
    | SweepFollowers(p: nat)
    | CommitDelete(p: nat)
    | Rollback(p: nat)
    | InsertInstance(instance: Id)
    | Unfollow(user: Id, instance: Id)

  predicate HoldsExclusive(s: State, p: nat, i: Id) {
    p in s.txs && s.txs[p].Delete? && s.txs[p].instance == i && s.txs[p].locked
  }

  predicate HoldsShared(d: Discipline, s: State, p: nat, i: Id) {
    d.sharedLock && p in s.txs && s.txs[p].Follow? && s.txs[p].instance == i && s.txs[p].found
  }

  predicate ExclusiveFree(s: State, i: Id) {
    forall q :: q in s.txs ==> !HoldsExclusive(s, q, i)
  }

  predicate RowFree(d: Discipline, s: State, i: Id) {
    ExclusiveFree(s, i) && forall q :: q in s.txs ==> !HoldsShared(d, s, q, i)
  }

  function End(s: State, p: nat): State {
    s.(txs := s.txs - {p})
  }

  /** SELECT ... FOR SHARE waits for an exclusive lock; a plain read does not. */
  function AfterRead(d: Discipline, s: State, p: nat): State {
    if p !in s.txs || !s.txs[p].Follow? || s.txs[p].found then s
    else if d.sharedLock && !ExclusiveFree(s, s.txs[p].instance) then s
    else if s.txs[p].instance !in s.instances then End(s, p)
    else s.(txs := s.txs[p := s.txs[p].(found := true)])
  }

  function AfterFollow(s: State, p: nat): State {
    if p !in s.txs || !s.txs[p].Follow? || !s.txs[p].found then s
    else End(s, p).(followers := s.followers + {Follower(s.txs[p].user, s.txs[p].instance)})
  }

  function AfterRowDelete(d: Discipline, s: State, p: nat): State {
    if p !in s.txs || !s.txs[p].Delete? || s.txs[p].locked || (!d.rowFirst && !s.txs[p].swept) then s
    else if !RowFree(d, s, s.txs[p].instance) then s
    else if s.txs[p].instance !in s.instances then End(s, p)
    else s.(txs := s.txs[p := s.txs[p].(locked := true)])
  }

  function AfterSweep(d: Discipline, s: State, p: nat): State {
    if p !in s.txs || !s.txs[p].Delete? || s.txs[p].swept || (d.rowFirst && !s.txs[p].locked) then s
    else
      var doomed := set f | f in s.followers && f.instance == s.txs[p].instance;
      s.(txs := s.txs[p := s.txs[p].(swept := true, doomed := doomed)])
  }

  function AfterDelete(s: State, p: nat): State {
    if p !in s.txs || !s.txs[p].Delete? || !s.txs[p].locked || !s.txs[p].swept then s
    else End(s, p).(instances := s.instances - {s.txs[p].instance}, followers := s.followers - s.txs[p].doomed)
  }

  function Apply(d: Discipline, s: State, step: Step): State {
    match step
    case BeginFollow(p, u, i) => if p in s.txs then s else s.(txs := s.txs[p := Follow(u, i, false)])
    case ReadInstance(p) => AfterRead(d, s, p)
    case CommitFollow(p) => AfterFollow(s, p)
    case BeginDelete(p, i) => if p in s.txs then s else s.(txs := s.txs[p := Delete(i, false, false, {})])
    case DeleteRow(p) => AfterRowDelete(d, s, p)
    case SweepFollowers(p) => AfterSweep(d, s, p)
    case CommitDelete(p) => AfterDelete(s, p)
    case Rollback(p) => End(s, p)
    case InsertInstance(i) =>
      if i in s.issued then s else s.(instances := s.instances + {i}, issued := s.issued + {i})
    case Unfollow(u, i) => s.(followers := s.followers - {Follower(u, i)})
  }

  function Run(d: Discipline, s: State, steps: seq<Step>): State
    decreases |steps|
  {
    if steps == [] then s else Run(d, Apply(d, s, steps[0]), steps[1..])
  }

  /** Every committed follower row refers to an existing instance. */
  ghost predicate NoOrphanFollower(s: State) {
    forall f :: f in s.followers ==> f.instance in s.instances
  }

  // ----- Both rules together are enough -----

  const Source := Discipline(true, true)

  ghost predicate TxOk(s: State, p: nat)
    requires p in s.txs
  {
    match s.txs[p]
    case Follow(_, i, found) => found ==> i in s.instances && ExclusiveFree(s, i)
    case Delete(i, locked, swept, doomed) =>
      && (locked ==> i in s.instances && forall q :: q in s.txs && HoldsExclusive(s, q, i) ==> q == p)
      && (swept ==> locked && forall f :: f in s.followers && f.instance == i ==> f in doomed)
      && (forall f :: f in doomed ==> f.instance == i)
  }

  ghost predicate Invariant(s: State) {
    NoOrphanFollower(s) && s.instances <= s.issued && forall p :: p in s.txs ==> TxOk(s, p)
  }

  lemma ReadKeepsInvariant(s: State, p: nat)
    requires Invariant(s)
    ensures Invariant(AfterRead(Source, s, p))
  {
    var next := AfterRead(Source, s, p);
    forall q | q in next.txs ensures TxOk(next, q) {
      assert TxOk(s, q);
      assert forall x, i :: HoldsExclusive(next, x, i) ==> HoldsExclusive(s, x, i);
    }
  }

  lemma FollowKeepsInvariant(s: State, p: nat)
    requires Invariant(s)
    ensures Invariant(AfterFollow(s, p))
  {
    var next := AfterFollow(s, p);
    if p in s.txs { assert TxOk(s, p); }
    forall q | q in next.txs ensures TxOk(next, q) {
      assert TxOk(s, q);
      assert forall x, i :: HoldsExclusive(next, x, i) ==> HoldsExclusive(s, x, i);
      assert s.txs[q].Delete? && s.txs[q].locked ==> HoldsExclusive(s, q, s.txs[q].instance);
    }
  }

  lemma RowDeleteKeepsInvariant(s: State, p: nat)
    requires Invariant(s)
    ensures Invariant(AfterRowDelete(Source, s, p))
  {
    var next := AfterRowDelete(Source, s, p);
    if p in s.txs { assert TxOk(s, p); }
    forall q | q in next.txs ensures TxOk(next, q) {
      assert TxOk(s, q);
      assert forall x, i :: HoldsExclusive(next, x, i) ==>
        HoldsExclusive(s, x, i) || (x == p && i == s.txs[p].instance);
      if next != s && next != End(s, p) {
        assert RowFree(Source, s, s.txs[p].instance);
        assert !HoldsShared(Source, s, q, s.txs[p].instance) && !HoldsExclusive(s, q, s.txs[p].instance);
      }
    }
  }

  lemma SweepKeepsInvariant(s: State, p: nat)
    requires Invariant(s)
    ensures Invariant(AfterSweep(Source, s, p))
  {
    var next := AfterSweep(Source, s, p);
    forall q | q in next.txs ensures TxOk(next, q) {
      assert TxOk(s, q);
      assert forall x, i :: HoldsExclusive(next, x, i) ==> HoldsExclusive(s, x, i);
    }
  }

  lemma DeleteKeepsInvariant(s: State, p: nat)
    requires Invariant(s)
    ensures Invariant(AfterDelete(s, p))
  {
    var next := AfterDelete(s, p);
    if p in s.txs { assert TxOk(s, p); }
    forall q | q in next.txs ensures TxOk(next, q) {
      assert TxOk(s, q);
      assert forall x, i :: HoldsExclusive(next, x, i) ==> HoldsExclusive(s, x, i);
      if next != s {
        assert HoldsExclusive(s, p, s.txs[p].instance);
        assert s.txs[q].Delete? && s.txs[q].locked ==> HoldsExclusive(s, q, s.txs[q].instance);
      }
    }
  }

  lemma OtherKeepsInvariant(s: State, step: Step)
    requires Invariant(s)
    requires step.BeginFollow? || step.BeginDelete? || step.Rollback? || step.InsertInstance? || step.Unfollow?
    ensures Invariant(Apply(Source, s, step))
  {
    var next := Apply(Source, s, step);
    forall q | q in next.txs ensures TxOk(next, q) {
      if q in s.txs { assert TxOk(s, q); }
      assert forall x, i :: HoldsExclusive(next, x, i) ==> HoldsExclusive(s, x, i);
    }
  }

  lemma {:induction false} RunKeepsInvariant(s: State, steps: seq<Step>)
    requires Invariant(s)
    ensures Invariant(Run(Source, s, steps))
    decreases |steps|
  {
    if steps != [] {
      match steps[0] {
        case ReadInstance(p) => ReadKeepsInvariant(s, p);
        case CommitFollow(p) => FollowKeepsInvariant(s, p);
        case DeleteRow(p) => RowDeleteKeepsInvariant(s, p);
        case SweepFollowers(p) => SweepKeepsInvariant(s, p);
        case CommitDelete(p) => DeleteKeepsInvariant(s, p);
        case _ => OtherKeepsInvariant(s, steps[0]);
      }
      RunKeepsInvariant(Apply(Source, s, steps[0]), steps[1..]);
    }
  }

  function Initial(instances: set<Id>): State {
    State(instances, instances, {}, map[])
  }

  /** No interleaving of any number of transactions leaves an orphan. */
  ghost predicate AlwaysSafe(d: Discipline) {
    forall instances: set<Id>, steps: seq<Step> :: NoOrphanFollower(Run(d, Initial(instances), steps))
  }

  // ----- Each rule alone is needed -----

  function DeleteInsideFollow(u: Id, i: Id): seq<Step> {
    [BeginFollow(0, u, i), ReadInstance(0), BeginDelete(1, i), DeleteRow(1),
     SweepFollowers(1), CommitDelete(1), CommitFollow(0)]
  }

  function FollowInsideDelete(u: Id, i: Id): seq<Step> {
    [BeginDelete(1, i), SweepFollowers(1), BeginFollow(0, u, i), ReadInstance(0),
     CommitFollow(0), DeleteRow(1), CommitDelete(1)]
  }

  /** Without the shared lock, a whole delete fits between read and insert. */
  lemma PlainReadLeavesAnOrphan(d: Discipline, u: Id, i: Id)
    requires !d.sharedLock && d.rowFirst
    ensures !NoOrphanFollower(Run(d, Initial({i}), DeleteInsideFollow(u, i)))
  {
    var follow := Follow(u, i, true);
    var s0 := Initial({i});
    var s2 := Apply(d, Apply(d, s0, BeginFollow(0, u, i)), ReadInstance(0));
    assert s2 == State({i}, {i}, {}, map[0 := follow]);
    var s4 := Apply(d, Apply(d, s2, BeginDelete(1, i)), DeleteRow(1));
    assert s4 == State({i}, {i}, {}, map[0 := follow, 1 := Delete(i, true, false, {})]);
    var s6 := Apply(d, Apply(d, s4, SweepFollowers(1)), CommitDelete(1));
    assert s6 == State({}, {i}, {}, map[0 := follow]);
    var s7 := Apply(d, s6, CommitFollow(0));
    assert Follower(u, i) in s7.followers;
    RunSeven(d, s0, DeleteInsideFollow(u, i));
  }

  /** When the followers go first, a whole follow fits before the row delete. */
  lemma SweepFirstLeavesAnOrphan(d: Discipline, u: Id, i: Id)
    requires !d.rowFirst
    ensures !NoOrphanFollower(Run(d, Initial({i}), FollowInsideDelete(u, i)))
  {
    var s0 := Initial({i});
    var s2 := Apply(d, Apply(d, s0, BeginDelete(1, i)), SweepFollowers(1));
    assert (set f | f in s0.followers && f.instance == i) == {};
    assert s2 == State({i}, {i}, {}, map[1 := Delete(i, false, true, {})]);
    var s4 := Apply(d, Apply(d, s2, BeginFollow(0, u, i)), ReadInstance(0));
    assert s4 == State({i}, {i}, {}, map[0 := Follow(u, i, true), 1 := Delete(i, false, true, {})]);
    var s5 := Apply(d, s4, CommitFollow(0));
    assert s5 == State({i}, {i}, {Follower(u, i)}, map[1 := Delete(i, false, true, {})]);
    var s7 := Apply(d, Apply(d, s5, DeleteRow(1)), CommitDelete(1));
    assert Follower(u, i) in s7.followers && i !in s7.instances;
    RunSeven(d, s0, FollowInsideDelete(u, i));
  }

  lemma RunSeven(d: Discipline, s: State, t: seq<Step>)
    requires |t| == 7
    ensures Run(d, s, t) ==
      Apply(d, Apply(d, Apply(d, Apply(d, Apply(d, Apply(d, Apply(d, s, t[0]), t[1]), t[2]), t[3]), t[4]), t[5]), t[6])
  {
    RunTwo(d, s, t);
    var s2 := Apply(d, Apply(d, s, t[0]), t[1]);
    RunTwo(d, s2, t[2..]);
    var s4 := Apply(d, Apply(d, s2, t[2]), t[3]);
    assert t[2..][2..] == t[4..];
    RunTwo(d, s4, t[4..]);
    assert t[4..][2..] == [t[6]];
  }

  lemma RunTwo(d: Discipline, s: State, t: seq<Step>)
    requires |t| >= 2
    ensures Run(d, s, t) == Run(d, Apply(d, Apply(d, s, t[0]), t[1]), t[2..])
  {
    assert t[1..][1..] == t[2..];
  }

  /** The lock protocol keeps every follower row on an existing instance for
      all interleavings exactly when it follows both rules. */
  lemma BothRulesAreNeeded(d: Discipline)
    ensures AlwaysSafe(d) <==> d.sharedLock && d.rowFirst
  {
    if d == Source {
      forall instances: set<Id>, steps: seq<Step> ensures NoOrphanFollower(Run(d, Initial(instances), steps)) {
        RunKeepsInvariant(Initial(instances), steps);
      }
    } else if !d.rowFirst {
      SweepFirstLeavesAnOrphan(d, 1, 2);
    } else {
      PlainReadLeavesAnOrphan(d, 1, 2);
    }
  }

  // ----- The repository, one transaction at a time -----

  /** A follow transaction that no other step interrupts. */
  function FollowAlone(u: Id, i: Id): seq<Step> {
    [BeginFollow(0, u, i), ReadInstance(0), CommitFollow(0)]
  }

  /** A delete transaction that no other step interrupts. */
  function DeleteAlone(i: Id): seq<Step> {
    [BeginDelete(0, i), DeleteRow(0), SweepFollowers(0), CommitDelete(0)]
  }

  lemma FollowAloneAdds(s: State, u: Id, i: Id)
    requires s.txs == map[]
    ensures Run(Source, s, FollowAlone(u, i)) ==
      if i in s.instances then s.(followers := s.followers + {Follower(u, i)}) else s
  {
    var t := FollowAlone(u, i);
    RunTwo(Source, s, t);
    var s2 := Apply(Source, Apply(Source, s, t[0]), t[1]);
    assert t[2..] == [CommitFollow(0)];
    RunOne(Source, s2, CommitFollow(0));
    assert s2 == s.(txs := if i in s.instances then map[0 := Follow(u, i, true)] else map[]);
  }

  lemma DeleteAloneRemoves(s: State, i: Id)
    requires s.txs == map[] && NoOrphanFollower(s)
    ensures Run(Source, s, DeleteAlone(i)) ==
      s.(instances := s.instances - {i}, followers := set f | f in s.followers && f.instance != i)
  {
    var t := DeleteAlone(i);
    RunTwo(Source, s, t);
    var s2 := Apply(Source, Apply(Source, s, t[0]), t[1]);
    RunTwo(Source, s2, t[2..]);
    assert t[2..][2..] == [];
    var s4 := Apply(Source, Apply(Source, s2, t[2]), t[3]);
    assert Run(Source, s2, t[2..]) == s4;
    var rest := set f | f in s.followers && f.instance != i;
    if i in s.instances {
      assert s2 == s.(txs := map[0 := Delete(i, true, false, {})]);
      assert s.followers - (set f | f in s.followers && f.instance == i) == rest;
    } else {
      assert s2 == s;
      assert rest == s.followers && s.instances - {i} == s.instances;
    }
  }

  lemma RunOne(d: Discipline, s: State, step: Step)
    ensures Run(d, s, [step]) == Apply(d, s, step)
  {
    assert [step][1..] == [];
    assert Run(d, Apply(d, s, step), []) == Apply(d, s, step);
  }

  /** What the remaining steps do: a rollback ends a transaction without a trace,
      and an instance is inserted once. */
  lemma OtherStepsTakeEffect(s: State, p: nat, i: Id)
    ensures var next := Apply(Source, s, Rollback(p));
      next.instances == s.instances && next.followers == s.followers && p !in next.txs
    ensures var next := Apply(Source, s, InsertInstance(i));
      && (i !in s.issued ==> next.instances == s.instances + {i}) && (i in s.issued ==> next == s)
      && next.followers == s.followers && next.txs == s.txs
  {}

  /** An unfollow undoes a follow exactly when the user did not follow the
      instance before. */
  lemma UnfollowUndoesFollow(s: State, u: Id, i: Id)
    requires s.txs == map[]
    ensures Apply(Source, Run(Source, s, FollowAlone(u, i)), Unfollow(u, i)) == s <==> Follower(u, i) !in s.followers
  {
    FollowAloneAdds(s, u, i);
    var last := Apply(Source, Run(Source, s, FollowAlone(u, i)), Unfollow(u, i));
    assert Follower(u, i) !in last.followers;
    if Follower(u, i) !in s.followers {
      assert s.followers + {Follower(u, i)} - {Follower(u, i)} == s.followers;
      assert s.followers - {Follower(u, i)} == s.followers;
    }
  }

  class FollowerRepository {
    var instances: set<Id>
    var issued: set<Id>
    var followers: set<Follower>

    /** The state of the machine between transactions. */
    ghost function View(): State
      reads this
    {
      State(instances, issued, followers, map[])
    }

    ghost predicate Valid()
      reads this
    {
      Invariant(View())
    }

    constructor (instances: set<Id>)
      ensures Valid() && View() == Initial(instances)
    {
      this.instances, issued, followers := instances, instances, {};
    }

    /** The read with FOR SHARE, then INSERT ... ON CONFLICT DO NOTHING. A
        missing instance is ErrNotFound. */
    method Follow(user: Id, instance: Id) returns (found: bool)
      requires Valid()
      modifies this`followers
      ensures Valid() && View() == Run(Source, old(View()), FollowAlone(user, instance))
      ensures found <==> Follower(user, instance) in followers
    {
      FollowAloneAdds(View(), user, instance);
      RunKeepsInvariant(View(), FollowAlone(user, instance));
      found := instance in instances;
      if found && Follower(user, instance) !in followers {
        followers := followers + {Follower(user, instance)};
      }
    }

    method Unfollow(user: Id, instance: Id)
      requires Valid()
      modifies this`followers
      ensures Valid() && View() == Apply(Source, old(View()), Step.Unfollow(user, instance))
    {
      OtherKeepsInvariant(View(), Step.Unfollow(user, instance));
      followers := followers - {Follower(user, instance)};
    }

    /** The part of DeleteInstanceRecord that concerns followers. */
    method DeleteInstance(instance: Id)
      requires Valid()
      modifies this
      ensures Valid() && View() == Run(Source, old(View()), DeleteAlone(instance))
      ensures forall f :: f in followers <==> f in old(followers) && f.instance != instance
    {
      DeleteAloneRemoves(View(), instance);
      RunKeepsInvariant(View(), DeleteAlone(instance));
      instances := instances - {instance};
      followers := set f | f in followers && f.instance != instance;
    }
  }
}
