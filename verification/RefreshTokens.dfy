/** Refresh tokens: conditional row updates by any number of requests. */
module RefreshTokens {
  import opened Keys
  import opened Paging

  datatype Token = Token(
    user: Text, family: Text, createdAt: int, expiresAt: int,
    revoked: bool, rotatedAt: Option<int>, lastActivity: int)

  type Tokens = map<Text, Token>

  /** issued holds every id ever inserted: ids are not reused. */
  datatype Db = Db(tokens: Tokens, issued: set<Text>)

  /** Which active tokens a revoke statement selects. */
  datatype Selector =
    | ById(id: Text)
    | ByIds(ids: set<Text>)
    | ByFamily(family: Text)
    | ByFamilyOfUser(family: Text, user: Text)
    | ByUser(user: Text)
    | ByUserExcept(user: Text, excluded: Text)

  /** "id = ?" also matches a legacy token that started the family. */
  predicate Selects(sel: Selector, id: Text, t: Token) {
    match sel
    case ById(i) => id == i
    case ByIds(ids) => id in ids
    case ByFamily(f) => t.family == f || id == f
    case ByFamilyOfUser(f, u) => (t.family == f || id == f) && t.user == u
    case ByUser(u) => t.user == u
    case ByUserExcept(u, x) => t.user == u && id != x
  }

  datatype Step =
    | Create(id: Text, token: Token)
    | MarkRotated(id: Text, at: int)
    | Revoke(selector: Selector)
    | Touch(family: Text, at: int)
    | DeleteExpired(before: int)

  predicate IsActive(db: Db, id: Text) {
    id in db.tokens && !db.tokens[id].revoked
  }

  function Revoked(tokens: Tokens, sel: Selector): Tokens {
    map id | id in tokens :: if Selects(sel, id, tokens[id]) then tokens[id].(revoked := true) else tokens[id]
  }

  predicate IsTouched(t: Token, family: Text, at: int) {
    t.family == family && !t.revoked && t.expiresAt > at && t.lastActivity < at
  }

  function Touched(tokens: Tokens, family: Text, at: int): Tokens {
    map id | id in tokens :: if IsTouched(tokens[id], family, at) then tokens[id].(lastActivity := at) else tokens[id]
  }

  function Apply(db: Db, step: Step): Db {
    match step
    case Create(id, t) =>
      if id in db.issued then db else Db(db.tokens[id := t], db.issued + {id})
    case MarkRotated(id, at) =>
      if IsActive(db, id)
      then db.(tokens := db.tokens[id := db.tokens[id].(revoked := true, rotatedAt := Some(at))]) else db
    case Revoke(sel) => db.(tokens := Revoked(db.tokens, sel))
    case Touch(f, at) => db.(tokens := Touched(db.tokens, f, at))
    case DeleteExpired(before) =>
      db.(tokens := map id | id in db.tokens && db.tokens[id].expiresAt >= before :: db.tokens[id])
  }

  function Run(db: Db, steps: seq<Step>): Db
    decreases |steps|
  {
    if steps == [] then db else Run(Apply(db, steps[0]), steps[1..])
  }

  // ----- What the statements select -----

  /** A revoke only sets revoked, of the selected tokens. */
  lemma RevokeTakesEffect(db: Db, sel: Selector, id: Text)
    requires id in db.tokens
    ensures id in Apply(db, Revoke(sel)).tokens
    ensures var t, next := db.tokens[id], Apply(db, Revoke(sel)).tokens[id];
      && next == t.(revoked := next.revoked)
      && (t.revoked ==> next.revoked)
      && (!t.revoked ==>
            match sel
            case ById(i) => next.revoked <==> id == i
            case ByIds(ids) => next.revoked <==> id in ids
            case ByFamily(f) => next.revoked <==> t.family == f || id == f
            case ByFamilyOfUser(f, u) => next.revoked <==> t.user == u && (t.family == f || id == f)
            case ByUser(u) => next.revoked <==> t.user == u
            case ByUserExcept(u, x) => next.revoked <==> t.user == u && id != x)
  {}

  /** The family of a user is untouched by a revoke for another user, and the
      excluded token stays active. */
  lemma RevokesStayInside(db: Db, user: Text, other: Text, family: Text, id: Text)
    requires IsActive(db, id) && db.tokens[id].user == other && other != user
    ensures IsActive(Apply(db, Revoke(ByUser(user))), id)
    ensures IsActive(Apply(db, Revoke(ByFamilyOfUser(family, user))), id)
    ensures IsActive(Apply(db, Revoke(ByUserExcept(user, []))), id)
    ensures IsActive(Apply(db, Revoke(ByUserExcept(other, id))), id)
  {}

  /** The cleanup removes exactly the tokens that expired before the time. */
  lemma DeleteExpiredTakesEffect(db: Db, before: int, id: Text)
    requires id in db.tokens
    ensures id !in Apply(db, DeleteExpired(before)).tokens <==> db.tokens[id].expiresAt < before
    ensures id in Apply(db, DeleteExpired(before)).tokens ==>
      Apply(db, DeleteExpired(before)).tokens[id] == db.tokens[id]
  {}

  /** A touch moves the last activity of the active, unexpired tokens of the
      family forward to its time, and changes nothing else. */
  lemma TouchTakesEffect(db: Db, family: Text, at: int, id: Text)
    requires id in db.tokens
    ensures id in Apply(db, Touch(family, at)).tokens
    ensures var t, next := db.tokens[id], Apply(db, Touch(family, at)).tokens[id];
      && next == t.(lastActivity := next.lastActivity)
      && (t.family == family && !t.revoked && t.expiresAt > at ==>
            next.lastActivity == if t.lastActivity < at then at else t.lastActivity)
      && (t.family != family || t.revoked || t.expiresAt <= at ==> next == t)
  {}

  /** A rotation changes the one active token; a create adds a token of a new
      id. */
  lemma RotateAndCreateTakeEffect(db: Db, id: Text, at: int, token: Token, x: Text)
    ensures IsActive(db, id) ==>
      Apply(db, MarkRotated(id, at)).tokens[id] == db.tokens[id].(revoked := true, rotatedAt := Some(at))
    ensures !IsActive(db, id) ==> Apply(db, MarkRotated(id, at)) == db
    ensures id !in db.issued ==>
      id in Apply(db, Create(id, token)).tokens && Apply(db, Create(id, token)).tokens[id] == token
    ensures x != id && x in db.tokens ==>
      && x in Apply(db, MarkRotated(id, at)).tokens && Apply(db, MarkRotated(id, at)).tokens[x] == db.tokens[x]
      && x in Apply(db, Create(id, token)).tokens && Apply(db, Create(id, token)).tokens[x] == db.tokens[x]
  {}

  ghost predicate Valid(db: Db) {
    db.tokens.Keys <= db.issued
  }

  lemma StepKeepsRow(db: Db, step: Step, id: Text)
    requires Valid(db) && id in db.issued
    ensures var next := Apply(db, step);
      && Valid(next) && id in next.issued
      && (id in next.tokens ==>
            && id in db.tokens
            && next.tokens[id].family == db.tokens[id].family
            && next.tokens[id].expiresAt == db.tokens[id].expiresAt
            && (db.tokens[id].revoked ==> next.tokens[id] == db.tokens[id]))
  {}

  // ----- Revoked stays revoked -----

  /** A revoked token never changes again, in any interleaving. */
  lemma {:induction false} RevokedForever(db: Db, steps: seq<Step>, id: Text)
    requires Valid(db) && id in db.issued && !IsActive(db, id)
    ensures !IsActive(Run(db, steps), id)
    ensures id in Run(db, steps).tokens ==> id in db.tokens && Run(db, steps).tokens[id] == db.tokens[id]
    decreases |steps|
  {
    if steps != [] {
      StepKeepsRow(db, steps[0], id);
      RevokedForever(Apply(db, steps[0]), steps[1..], id);
    }
  }

  // ----- One winner per rotation -----

  /** RowsAffected of MarkRotatedIfActive. */
  function RotatedRows(db: Db, step: Step, id: Text): nat {
    if step.MarkRotated? && step.id == id && IsActive(db, id) then 1 else 0
  }

  /** How many rotation calls for the token report a row. */
  function Winners(db: Db, steps: seq<Step>, id: Text): nat
    decreases |steps|
  {
    if steps == [] then 0 else RotatedRows(db, steps[0], id) + Winners(Apply(db, steps[0]), steps[1..], id)
  }

  /** The time of the first rotation call that reports a row. */
  function WinnerTime(db: Db, steps: seq<Step>, id: Text): Option<int>
    decreases |steps|
  {
    if steps == [] then None
    else if RotatedRows(db, steps[0], id) > 0 then Some(steps[0].at)
    else WinnerTime(Apply(db, steps[0]), steps[1..], id)
  }

  lemma {:induction false} NoWinnerAfterRevoke(db: Db, steps: seq<Step>, id: Text)
    requires Valid(db) && id in db.issued && !IsActive(db, id)
    ensures Winners(db, steps, id) == 0
    decreases |steps|
  {
    if steps != [] {
      StepKeepsRow(db, steps[0], id);
      NoWinnerAfterRevoke(Apply(db, steps[0]), steps[1..], id);
    }
  }

  /** At most one of any number of concurrent rotation calls wins, and
      rotated_at is the time of that winner, or what it was before. */
  lemma {:induction false} OneRotationWins(db: Db, steps: seq<Step>, id: Text)
    requires Valid(db) && id in db.issued
    ensures Winners(db, steps, id) <= 1
    ensures Winners(db, steps, id) == 1 <==> WinnerTime(db, steps, id).Some?
    ensures id in Run(db, steps).tokens ==> id in db.tokens
    ensures id in Run(db, steps).tokens ==>
      Run(db, steps).tokens[id].rotatedAt ==
        if Winners(db, steps, id) == 1 then WinnerTime(db, steps, id) else db.tokens[id].rotatedAt
    decreases |steps|
  {
    if steps != [] {
      var next := Apply(db, steps[0]);
      StepKeepsRow(db, steps[0], id);
      if RotatedRows(db, steps[0], id) > 0 {
        NoWinnerAfterRevoke(next, steps[1..], id);
        RevokedForever(next, steps[1..], id);
      } else {
        OneRotationWins(next, steps[1..], id);
      }
    }
  }

  // ----- The last activity does not depend on the order of the touches -----

  /** The touch times of the run that lie before the expiry. */
  function TouchTimes(steps: seq<Step>, family: Text, expiresAt: int): set<int> {
    if steps == [] then {} else
      TouchTimes(steps[1..], family, expiresAt)
      + if steps[0].Touch? && steps[0].family == family && steps[0].at < expiresAt then {steps[0].at} else {}
  }

  ghost predicate IsMaximum(m: int, start: int, times: set<int>) {
    && (m == start || m in times)
    && start <= m && forall t :: t in times ==> t <= m
  }

  /** For a token that stays active, last_activity is the maximum of its first
      value and the touch times before its expiry. */
  lemma {:induction false} ActivityIsTheLatestTouch(db: Db, steps: seq<Step>, id: Text)
    requires Valid(db) && id in db.tokens && IsActive(Run(db, steps), id)
    ensures var t := db.tokens[id];
      IsMaximum(Run(db, steps).tokens[id].lastActivity, t.lastActivity, TouchTimes(steps, t.family, t.expiresAt))
    decreases |steps|
  {
    if steps != [] {
      var next := Apply(db, steps[0]);
      StepKeepsRow(db, steps[0], id);
      if !IsActive(next, id) {
        RevokedForever(next, steps[1..], id);
      } else {
        ActivityIsTheLatestTouch(next, steps[1..], id);
      }
    }
  }

  /** Two runs with the same touch times, in any order and with any repeats,
      leave the same last activity. */
  lemma ActivityIgnoresTheOrder(db: Db, a: seq<Step>, b: seq<Step>, id: Text)
    requires Valid(db) && id in db.tokens && IsActive(Run(db, a), id) && IsActive(Run(db, b), id)
    requires TouchTimes(a, db.tokens[id].family, db.tokens[id].expiresAt)
          == TouchTimes(b, db.tokens[id].family, db.tokens[id].expiresAt)
    ensures Run(db, a).tokens[id].lastActivity == Run(db, b).tokens[id].lastActivity
  {
    ActivityIsTheLatestTouch(db, a, id);
    ActivityIsTheLatestTouch(db, b, id);
  }

  // ----- The session cap -----

  const MaxRevokeBatch: nat := 1000

  /** The active tokens of the user that count for the cap at time now. */
  ghost function Candidates(db: Db, user: Text, excluded: Text, now: int): set<Key> {
    set id | IsActive(db, id) && id in db.tokens && db.tokens[id].user == user && db.tokens[id].expiresAt > now
      && (excluded == [] || id != excluded) :: Key(db.tokens[id].createdAt, id)
  }

  function AtLeastZero(keep: int): nat {
    if keep < 0 then 0 else keep
  }

  /** ORDER BY created_at DESC, id DESC OFFSET keep LIMIT 1000. */
  ghost function Oldest(db: Db, user: Text, keep: int, excluded: Text, now: int): seq<Key> {
    Take(Drop(SortDesc(Candidates(db, user, excluded, now)), AtLeastZero(keep)), MaxRevokeBatch)
  }

  /** The ids that the first statement of the call reads. */
  ghost function OldestIds(db: Db, user: Text, keep: int, excluded: Text, now: int): set<Text> {
    set k | k in Oldest(db, user, keep, excluded, now) :: k.id
  }

  /** The ids are read in db, others are the statements of other requests before
      the update. */
  ghost function Capped(db: Db, user: Text, keep: int, excluded: Text, now: int, others: seq<Step>): Db {
    Apply(Run(db, others), Revoke(ByIds(OldestIds(db, user, keep, excluded, now))))
  }

  lemma OldestHaveNewer(db: Db, user: Text, keep: int, excluded: Text, now: int, k: Key)
    requires k in Oldest(db, user, keep, excluded, now)
    ensures k in Candidates(db, user, excluded, now)
    ensures |set x | x in Candidates(db, user, excluded, now) && Less(k, x)| >= keep
  {
    var all := Candidates(db, user, excluded, now);
    var sorted := SortDesc(all);
    SortDescSorts(all);
    var picked := Oldest(db, user, keep, excluded, now);
    var i :| 0 <= i < |picked| && picked[i] == k;
    var n := AtLeastZero(keep) + i;
    assert sorted[n] == k && k in sorted;
    PrefixIsAbove(all, n);
    var newer := set x | x in all && Less(k, x);
    assert |newer| >= keep;
  }

  /** Whatever other requests do between the read and the update, the call
      changes only tokens that were active candidates at the read with at least
      keep newer ones, and only by revoking them: the keep newest, the excluded
      one and every token that was created after the read stay as they are. */
  lemma CapSparesTheNewest(
    db: Db, user: Text, keep: int, excluded: Text, now: int, others: seq<Step>, id: Text)
    requires Valid(db) && id in Run(db, others).tokens
    ensures var mid := Run(db, others).tokens[id];
      var last := Capped(db, user, keep, excluded, now, others);
      && id in last.tokens
      && (last.tokens[id] != mid ==>
            && !mid.revoked && last.tokens[id] == mid.(revoked := true)
            && id in db.tokens && (excluded != [] ==> id != excluded)
            && var k := Key(db.tokens[id].createdAt, id);
               && k in Candidates(db, user, excluded, now)
               && |set x | x in Candidates(db, user, excluded, now) && Less(k, x)| >= keep)
  {
    var last := Capped(db, user, keep, excluded, now, others);
    if last.tokens[id] != Run(db, others).tokens[id] {
      var k :| k in Oldest(db, user, keep, excluded, now) && k.id == id;
      OldestHaveNewer(db, user, keep, excluded, now, k);
    }
  }

  function Members(q: seq<Key>): set<Key> {
    set k | k in q
  }

  /** A call that no other request interrupts leaves exactly the keep newest
      candidates active, and those that its batch of 1000 did not reach. */
  lemma CapLeavesTheNewest(db: Db, user: Text, keep: int, excluded: Text, now: int)
    ensures var sorted := SortDesc(Candidates(db, user, excluded, now));
      var n: nat := if keep > 0 then keep else 0;
      Candidates(Capped(db, user, keep, excluded, now, []), user, excluded, now) ==
        Members(Take(sorted, n) + Drop(sorted, n + 1000))
  {
    var all := Candidates(db, user, excluded, now);
    var sorted, n := SortDesc(all), AtLeastZero(keep);
    SortDescSorts(all);
    var last := Capped(db, user, keep, excluded, now, []);
    assert Drop(Drop(sorted, n), MaxRevokeBatch) == Drop(sorted, n + MaxRevokeBatch);
    forall k ensures k in Candidates(last, user, excluded, now) <==>
      k in Take(sorted, n) + Drop(sorted, n + MaxRevokeBatch)
    {
      RestStaysCandidate(db, user, keep, excluded, now, k);
      SplitAt(sorted, n, k);
      SplitAt(Drop(sorted, n), MaxRevokeBatch, k);
    }
  }

  lemma RestStaysCandidate(db: Db, user: Text, keep: int, excluded: Text, now: int, k: Key)
    ensures k in Candidates(Capped(db, user, keep, excluded, now, []), user, excluded, now) <==>
      k in Candidates(db, user, excluded, now) && k !in Oldest(db, user, keep, excluded, now)
  {
    var ids := OldestIds(db, user, keep, excluded, now);
    var last := Capped(db, user, keep, excluded, now, []);
    CandidateMeans(db, user, excluded, now, k);
    CandidateMeans(last, user, excluded, now, k);
    assert last.tokens == Revoked(db.tokens, ByIds(ids));
    assert k in Oldest(db, user, keep, excluded, now) ==> k.id in ids;
    if k in Candidates(db, user, excluded, now) && k.id in ids {
      var x :| x in Oldest(db, user, keep, excluded, now) && x.id == k.id;
      OldestHaveNewer(db, user, keep, excluded, now, x);
    }
  }

  lemma CandidateMeans(db: Db, user: Text, excluded: Text, now: int, k: Key)
    ensures k in Candidates(db, user, excluded, now) <==>
      && IsActive(db, k.id) && db.tokens[k.id].user == user && db.tokens[k.id].expiresAt > now
      && (excluded == [] || k.id != excluded) && k.at == db.tokens[k.id].createdAt
  {
    if IsActive(db, k.id) && k.at == db.tokens[k.id].createdAt {
      assert k == Key(db.tokens[k.id].createdAt, k.id);
    }
  }

  /** A descending list has each row on one side of a cut. */
  lemma SplitAt(q: seq<Key>, n: nat, k: Key)
    requires Descending(q)
    ensures k in q <==> k in Take(q, n) || k in Drop(q, n)
    ensures !(k in Take(q, n) && k in Drop(q, n))
    ensures Descending(Drop(q, n))
  {
    if |q| > n {
      assert q == q[..n] + q[n..];
      if k in q[..n] && k in q[n..] {
        var i :| 0 <= i < n && q[i] == k;
        var j :| 0 <= j < |q[n..]| && q[n..][j] == k;
        assert Less(q[n + j], q[i]);
        LessTrichotomy(k, k);
      }
    }
  }

  /** The first n rows of the sorted list are above row n. */
  lemma PrefixIsAbove(s: set<Key>, n: nat)
    requires n < |SortDesc(s)|
    ensures |set x | x in s && Less(SortDesc(s)[n], x)| >= n
  {
    SortDescSorts(s);
    var q := SortDesc(s);
    var above := set x | x in s && Less(q[n], x);
    forall i | 0 <= i < n ensures q[i] in above {
      assert q[i] in q;
    }
    DistinctRows(q, n, above);
  }

  lemma {:induction false} DistinctRows(q: seq<Key>, n: nat, s: set<Key>)
    requires Descending(q) && n <= |q| && forall i :: 0 <= i < n ==> q[i] in s
    ensures |s| >= n
  {
    if n > 0 {
      var k := q[n - 1];
      forall i | 0 <= i < n - 1 ensures q[i] in s - {k} {
        LessTrichotomy(k, q[i]);
      }
      DistinctRows(q, n - 1, s - {k});
      assert |s - {k}| == |s| - 1;
    }
  }

  // ----- The repository -----

  class TokenRepository {
    var tokens: Tokens
    var issued: set<Text>

    ghost function View(): Db
      reads this
    {
      Db(tokens, issued)
    }

    constructor ()
      ensures View() == Db(map[], {})
    {
      tokens, issued := map[], {};
    }

    method MarkRotatedIfActive(id: Text, at: int) returns (rows: nat)
      modifies this`tokens
      ensures View() == Apply(old(View()), MarkRotated(id, at))
      ensures rows == RotatedRows(old(View()), MarkRotated(id, at), id)
      ensures !IsActive(View(), id)
    {
      rows := 0;
      if id in tokens && !tokens[id].revoked {
        tokens := tokens[id := tokens[id].(revoked := true, rotatedAt := Some(at))];
        rows := 1;
      }
    }

    method RevokeFamily(family: Text)
      modifies this`tokens
      ensures View() == Apply(old(View()), Revoke(ByFamily(family)))
      ensures forall id :: IsActive(View(), id) <==>
        IsActive(old(View()), id) && old(tokens)[id].family != family && id != family
    {
      tokens := map id | id in tokens ::
        if (tokens[id].family == family || id == family) && !tokens[id].revoked
        then tokens[id].(revoked := true) else tokens[id];
    }

    method TouchFamily(family: Text, at: int)
      modifies this`tokens
      ensures View() == Apply(old(View()), Touch(family, at))
      ensures forall id :: id in tokens <==> id in old(tokens)
      ensures forall id :: id in tokens ==> tokens[id].lastActivity >= old(tokens)[id].lastActivity
    {
      tokens := map id | id in tokens ::
        if tokens[id].family == family && !tokens[id].revoked
           && tokens[id].expiresAt > at && tokens[id].lastActivity < at
        then tokens[id].(lastActivity := at) else tokens[id];
    }
  }
}
