/** Keyset paging on (started_at, id) descending. A table is the set of the
    keys of the rows that match the filters of the list. */
module Paging {
  import opened Keys
  import opened Cursor

  // ----- Sorting everything, the reference -----

  /** All keys, newest first. */
  ghost function SortDesc(s: set<Key>): seq<Key>
    decreases |s|
  {
    if s == {} then [] else
      var g := Greatest(s);
      [g] + SortDesc(s - {g})
  }

  ghost predicate Descending(q: seq<Key>) {
    forall i, j :: 0 <= i < j < |q| ==> Less(q[j], q[i])
  }

  ghost predicate Lists(q: seq<Key>, s: set<Key>) {
    forall k :: k in q <==> k in s
  }

  lemma {:induction false} SortDescSorts(s: set<Key>)
    ensures Descending(SortDesc(s)) && |SortDesc(s)| == |s|
    ensures Lists(SortDesc(s), s)
    decreases |s|
  {
    if s != {} {
      var g := Greatest(s);
      SortDescSorts(s - {g});
      GreatestFirst(SortDesc(s - {g}), s);
      assert |s - {g}| == |s| - 1;
    }
  }

  lemma GreatestFirst(tail: seq<Key>, s: set<Key>)
    requires s != {} && Descending(tail) && Lists(tail, s - {Greatest(s)})
    ensures Descending([Greatest(s)] + tail) && Lists([Greatest(s)] + tail, s)
  {
    var g := Greatest(s);
    forall i, j | 0 <= i < j < |[g] + tail| ensures Less(([g] + tail)[j], ([g] + tail)[i]) {
      assert tail[j - 1] in tail;
    }
  }

  /** There is only one way to list a set in descending order. */
  lemma {:induction false} SortDescIsUnique(q: seq<Key>, s: set<Key>)
    requires Descending(q) && Lists(q, s)
    ensures q == SortDesc(s)
    decreases |s|
  {
    EmptyListsNothing(q, s);
    if s != {} {
      HeadIsGreatest(q, s);
      TailListsTheRest(q, s);
      var g := Greatest(s);
      SortDescIsUnique(q[1..], s - {g});
      assert q == [g] + q[1..];
    }
  }

  lemma EmptyListsNothing(q: seq<Key>, s: set<Key>)
    requires Lists(q, s)
    ensures q == [] <==> s == {}
  {
    if q != [] { assert q[0] in q; }
    if s != {} { var k :| k in s; assert k in q; }
  }

  lemma HeadIsGreatest(q: seq<Key>, s: set<Key>)
    requires s != {} && Descending(q) && Lists(q, s)
    ensures q != [] && q[0] == Greatest(s)
  {
    var g := Greatest(s);
    assert g in q;
    var j :| 0 <= j < |q| && q[j] == g;
    assert q[0] in s;
    if j > 0 { LessTrichotomy(q[0], g); }
  }

  lemma TailListsTheRest(q: seq<Key>, s: set<Key>)
    requires q != [] && Descending(q) && Lists(q, s)
    ensures Descending(q[1..]) && Lists(q[1..], s - {q[0]})
  {
    var rest := q[1..];
    assert q == [q[0]] + rest;
    forall k ensures k in rest <==> k in s - {q[0]} {
      if k in rest {
        var i :| 0 <= i < |rest| && rest[i] == k;
        assert q[i + 1] == k;
        LessTrichotomy(k, q[0]);
      }
    }
  }

  /** The WHERE clause of a cursor: started_at < ts OR (= ts AND id < id). */
  ghost function Below(rows: set<Key>, after: Option<Key>): set<Key> {
    set k | k in rows && (after.None? || Less(k, after.value))
  }

  /** Skipping n rows of the sorted list is the same as asking for the rows
      below the n-th. */
  lemma DropIsBelow(rows: set<Key>, after: Option<Key>, n: nat)
    requires 0 < n <= |SortDesc(Below(rows, after))|
    ensures var sorted := SortDesc(Below(rows, after));
      sorted[n..] == SortDesc(Below(rows, Some(sorted[n - 1])))
  {
    var all := Below(rows, after);
    SortDescSorts(all);
    var sorted := SortDesc(all);
    var last := sorted[n - 1];
    assert last in sorted;
    forall k ensures k in Below(rows, Some(last)) <==> k in all && Less(k, last) {
      if k in rows && Less(k, last) && after.Some? { LessTransitive(k, last, after.value); }
    }
    SuffixIsBelow(sorted, all, n);
    SortDescIsUnique(sorted[n..], Below(rows, Some(last)));
  }

  lemma SuffixIsBelow(q: seq<Key>, s: set<Key>, n: nat)
    requires Descending(q) && Lists(q, s) && 0 < n <= |q|
    ensures Descending(q[n..]) && forall k :: k in q[n..] <==> k in s && Less(k, q[n - 1])
  {
    forall k ensures k in q[n..] <==> k in s && Less(k, q[n - 1]) {
      if k in q[n..] {
        var i :| 0 <= i < |q[n..]| && q[n..][i] == k;
        assert q[n + i] == k;
      }
      if k in s && Less(k, q[n - 1]) {
        var i :| 0 <= i < |q| && q[i] == k;
        LessTrichotomy(k, q[n - 1]);
        assert q[n..][i - n] == k;
      }
    }
  }

  /** After size rows the rest of the sorted list is what is below the last. */
  lemma RestIsBelowLast(rows: set<Key>, after: Option<Key>, size: nat)
    requires 0 < size < |SortDesc(Below(rows, after))|
    ensures var sorted := SortDesc(Below(rows, after));
      var rest := Below(rows, Some(sorted[size - 1]));
      sorted == sorted[..size] + SortDesc(rest) && |rest| < |Below(rows, after)|
  {
    var sorted := SortDesc(Below(rows, after));
    SortDescSorts(Below(rows, after));
    DropIsBelow(rows, after, size);
    SortDescSorts(Below(rows, Some(sorted[size - 1])));
    assert sorted == sorted[..size] + sorted[size..];
  }

  // ----- One page -----

  datatype Page = Page(rows: seq<Key>, next: Text) | Invalid

  /** A missing limit is the default, a large one the maximum. */
  function PageSize(limit: int, default: nat, max: nat): (size: nat)
    ensures 0 < default && 0 < max ==> 0 < size <= max
  {
    var wanted: nat := if limit <= 0 then default else limit;
    if wanted < max then wanted else max
  }

  function Take(q: seq<Key>, n: nat): seq<Key> {
    if |q| <= n then q else q[..n]
  }

  function Drop(q: seq<Key>, n: nat): seq<Key> {
    if |q| <= n then [] else q[n..]
  }

  /** A cut keeps every row: the first n, or all, and then the rest. */
  lemma TakeAndDrop(q: seq<Key>, n: nat)
    ensures Take(q, n) + Drop(q, n) == q
    ensures |Take(q, n)| == if |q| <= n then |q| else n
  {
    if |q| > n { assert q == q[..n] + q[n..]; }
  }

  /** Of the rows in order, LIMIT size + 1: an extra row means there is a next
      page. */
  function CursorPage(tt: TimeText, sorted: seq<Key>, size: nat): Page
    requires size > 0
  {
    var fetched := Take(sorted, size + 1);
    if |fetched| > size then Page(fetched[..size], EncodeCursor(tt, fetched[size - 1]))
    else Page(fetched, [])
  }

  /** Of the rows in order, LIMIT size OFFSET offset; total comes from the
      separate count. */
  function OffsetPage(tt: TimeText, sorted: seq<Key>, total: nat, offset: nat, size: nat): Page
    requires size > 0
  {
    var data := Take(Drop(sorted, offset), size);
    if |data| > 0 && offset + |data| < total
    then Page(data, EncodeCursor(tt, data[|data| - 1]))
    else Page(data, [])
  }

  /** ListByInstance of the action runs; the cursor path of the deploy logs. */
  ghost function ListPage(tt: TimeText, rows: set<Key>, cursor: Text, size: nat): Page
    requires size > 0
  {
    if cursor == [] then CursorPage(tt, SortDesc(Below(rows, None)), size)
    else
      match DecodeCursor(tt, cursor)
      case Position(key) => CursorPage(tt, SortDesc(Below(rows, Some(key))), size)
      case _ => Invalid
  }

  /** The list of the action runs: 20 rows by default, at most 100. */
  ghost function ListActionRuns(tt: TimeText, rows: set<Key>, cursor: Text, limit: int): Page {
    ListPage(tt, rows, cursor, PageSize(limit, 20, 100))
  }

  /** The list of the deploy logs: 50 rows by default, at most 100, and a page
      by offset when there is no cursor. */
  ghost function ListDeployLogs(tt: TimeText, rows: set<Key>, cursor: Text, offset: nat, limit: int): Page {
    var size := PageSize(limit, 50, 100);
    if cursor != [] then ListPage(tt, rows, cursor, size)
    else OffsetPage(tt, SortDesc(rows), |rows|, offset, size)
  }

  /** The cursor text stands for the position; the empty text is the start of
      a list or, as a next cursor, its end. */
  predicate Denotes(tt: TimeText, cursor: Text, position: Option<Key>) {
    if cursor == [] then position.None? else position.Some? && DecodeCursor(tt, cursor) == Position(position.value)
  }

  ghost predicate HaveIds(rows: set<Key>) {
    forall k :: k in rows ==> k.id != []
  }

  /** Where a page of size rows continues. */
  function NextPosition(sorted: seq<Key>, size: nat): Option<Key>
    requires size > 0
  {
    if |sorted| > size then Some(sorted[size - 1]) else None
  }

  lemma CursorPageHolds(tt: TimeText, sorted: seq<Key>, size: nat)
    requires Faithful(tt) && size > 0 && forall k :: k in sorted ==> k.id != []
    ensures var page := CursorPage(tt, sorted, size);
      page.Page? && page.rows == Take(sorted, size) && Denotes(tt, page.next, NextPosition(sorted, size))
  {
    if |sorted| > size {
      var fetched := Take(sorted, size + 1);
      assert fetched[..size] == sorted[..size] && fetched[size - 1] == sorted[size - 1];
      CursorRoundTrip(tt, sorted[size - 1]);
    }
  }

  /** What a page holds: the first rows below the cursor, and a next cursor for
      the last of them exactly when more rows follow. */
  lemma PageIsAPrefix(tt: TimeText, rows: set<Key>, cursor: Text, after: Option<Key>, size: nat)
    requires Faithful(tt) && HaveIds(rows) && size > 0 && Denotes(tt, cursor, after)
    ensures var sorted := SortDesc(Below(rows, after));
      var page := ListPage(tt, rows, cursor, size);
      page.Page? && page.rows == Take(sorted, size) && Denotes(tt, page.next, NextPosition(sorted, size))
  {
    SortDescSorts(Below(rows, after));
    CursorPageHolds(tt, SortDesc(Below(rows, after)), size);
  }

  /** A page by offset of an unchanged table ends the list, or its next cursor
      continues exactly where it stops; the page at offset 0 is the first page
      of the cursor walk. */
  lemma OffsetPageContinues(tt: TimeText, sorted: seq<Key>, offset: nat, size: nat)
    requires Faithful(tt) && size > 0 && forall k :: k in sorted ==> k.id != []
    ensures var page := OffsetPage(tt, sorted, |sorted|, offset, size);
      && page.Page? && page.rows == Take(Drop(sorted, offset), size)
      && Denotes(tt, page.next, NextPosition(Drop(sorted, offset), size))
    ensures OffsetPage(tt, sorted, |sorted|, 0, size) == CursorPage(tt, sorted, size)
  {
    var rest := Drop(sorted, offset);
    if |rest| > size {
      assert Take(rest, size)[size - 1] == rest[size - 1] == sorted[offset + size - 1];
      CursorRoundTrip(tt, rest[size - 1]);
    }
    if |sorted| > size {
      assert Drop(sorted, 0) == sorted;
      assert Take(sorted, size + 1)[..size] == sorted[..size];
    }
  }

  /** The deploy log list without an offset gives the pages of the same walk as
      the action run list. */
  lemma DeployLogPagesAreAWalk(tt: TimeText, rows: set<Key>, cursor: Text, limit: int)
    requires Faithful(tt) && HaveIds(rows)
    ensures ListDeployLogs(tt, rows, cursor, 0, limit) == ListPage(tt, rows, cursor, PageSize(limit, 50, 100))
  {
    if cursor == [] {
      SortDescSorts(rows);
      assert Below(rows, None) == rows;
      OffsetPageContinues(tt, SortDesc(rows), 0, PageSize(limit, 50, 100));
    }
  }

  // ----- The two lists -----

  /** What a page of the action runs holds for every limit: without one 20 rows,
      at most 100, from the cursor on, newest first. */
  lemma ActionRunPage(tt: TimeText, rows: set<Key>, cursor: Text, after: Option<Key>, limit: int, n: nat)
    requires Faithful(tt) && HaveIds(rows) && Denotes(tt, cursor, after)
    requires n == if limit <= 0 then 20 else if limit > 100 then 100 else limit
    ensures var page := ListActionRuns(tt, rows, cursor, limit);
      var rest := SortDesc(Below(rows, after));
      && page.Page? && page.rows <= rest && |page.rows| == (if |rest| < n then |rest| else n)
      && (page.next == [] <==> |rest| <= n)
      && (|rest| > n ==> DecodeCursor(tt, page.next) == Position(rest[n - 1]))
  {
    PageIsAPrefix(tt, rows, cursor, after, n);
  }

  /** The same for the deploy logs with a cursor: without a limit 50 rows. */
  lemma DeployLogCursorPage(tt: TimeText, rows: set<Key>, cursor: Text, after: Key, offset: nat, limit: int, n: nat)
    requires Faithful(tt) && HaveIds(rows) && cursor != [] && DecodeCursor(tt, cursor) == Position(after)
    requires n == if limit <= 0 then 50 else if limit > 100 then 100 else limit
    ensures var page := ListDeployLogs(tt, rows, cursor, offset, limit);
      var rest := SortDesc(Below(rows, Some(after)));
      && page.Page? && page.rows <= rest && |page.rows| == (if |rest| < n then |rest| else n)
      && (page.next == [] <==> |rest| <= n)
      && (|rest| > n ==> DecodeCursor(tt, page.next) == Position(rest[n - 1]))
  {
    PageIsAPrefix(tt, rows, cursor, Some(after), n);
  }

  /** Without a cursor a page skips offset rows; the next cursor is there exactly
      when more rows follow, and names the last row of the page. */
  lemma DeployLogOffsetPage(tt: TimeText, rows: set<Key>, offset: nat, limit: int, n: nat)
    requires Faithful(tt) && HaveIds(rows)
    requires n == if limit <= 0 then 50 else if limit > 100 then 100 else limit
    ensures var page := ListDeployLogs(tt, rows, [], offset, limit);
      var all := SortDesc(rows);
      && page.Page?
      && |page.rows| == (if |all| <= offset then 0 else if |all| < offset + n then |all| - offset else n)
      && (forall i :: 0 <= i < |page.rows| ==> page.rows[i] == all[offset + i])
      && (page.next == [] <==> |all| <= offset + n)
      && (|all| > offset + n ==> DecodeCursor(tt, page.next) == Position(all[offset + n - 1]))
  {
    var all := SortDesc(rows);
    SortDescSorts(rows);
    assert ListDeployLogs(tt, rows, [], offset, limit) == OffsetPage(tt, all, |all|, offset, n);
    OffsetPageIsASlice(tt, all, offset, n);
  }

  lemma OffsetPageIsASlice(tt: TimeText, all: seq<Key>, offset: nat, n: nat)
    requires Faithful(tt) && n > 0 && forall k :: k in all ==> k.id != []
    ensures var page := OffsetPage(tt, all, |all|, offset, n);
      && page.Page?
      && |page.rows| == (if |all| <= offset then 0 else if |all| < offset + n then |all| - offset else n)
      && (forall i :: 0 <= i < |page.rows| ==> page.rows[i] == all[offset + i])
      && (page.next == [] <==> |all| <= offset + n)
      && (|all| > offset + n ==> DecodeCursor(tt, page.next) == Position(all[offset + n - 1]))
  {
    OffsetPageContinues(tt, all, offset, n);
    SliceAt(all, offset, n);
    NextOfSlice(all, offset, n);
  }

  lemma NextOfSlice(q: seq<Key>, offset: nat, n: nat)
    requires n > 0
    ensures NextPosition(Drop(q, offset), n) == if |q| > offset + n then Some(q[offset + n - 1]) else None
    ensures |Take(Drop(q, offset), n)| == if |q| <= offset then 0 else if |q| < offset + n then |q| - offset else n
  {}

  lemma SliceAt(q: seq<Key>, offset: nat, n: nat)
    ensures forall i :: 0 <= i < |Take(Drop(q, offset), n)| ==> Take(Drop(q, offset), n)[i] == q[offset + i]
  {}

  /** A text that is no cursor is refused by both lists. */
  lemma BadCursorIsRefused(tt: TimeText, rows: set<Key>, cursor: Text, offset: nat, limit: int)
    requires cursor != []
    ensures ListActionRuns(tt, rows, cursor, limit) == Invalid <==> !DecodeCursor(tt, cursor).Position?
    ensures ListDeployLogs(tt, rows, cursor, offset, limit) == Invalid <==> !DecodeCursor(tt, cursor).Position?
  {}

  // ----- Following the next cursor -----

  datatype Walked = Walked(listed: seq<Key>, done: bool)

  /** A client that follows NextCursor until it is empty; tables[k] is the
      table when it asks for page k. */
  ghost function Walk(tt: TimeText, tables: seq<set<Key>>, cursor: Text, size: nat): Walked
    requires size > 0
    decreases |tables|
  {
    if tables == [] then Walked([], false)
    else
      var page := ListPage(tt, tables[0], cursor, size);
      if page.Invalid? then Walked([], false)
      else if page.next == [] then Walked(page.rows, true)
      else
        var rest := Walk(tt, tables[1..], page.next, size);
        Walked(page.rows + rest.listed, rest.done)
  }

  /** The same walk over positions instead of cursor texts. */
  ghost function WalkPositions(tables: seq<set<Key>>, after: Option<Key>, size: nat): Walked
    requires size > 0
    decreases |tables|
  {
    if tables == [] then Walked([], false)
    else
      var sorted := SortDesc(Below(tables[0], after));
      if |sorted| <= size then Walked(sorted, true)
      else
        var rest := WalkPositions(tables[1..], Some(sorted[size - 1]), size);
        Walked(sorted[..size] + rest.listed, rest.done)
  }

  lemma {:induction false} WalkIsWalkPositions(
    tt: TimeText, tables: seq<set<Key>>, cursor: Text, after: Option<Key>, size: nat)
    requires Faithful(tt) && size > 0 && Denotes(tt, cursor, after)
    requires forall t :: t in tables ==> HaveIds(t)
    ensures Walk(tt, tables, cursor, size) == WalkPositions(tables, after, size)
    decreases |tables|
  {
    if tables != [] {
      PageIsAPrefix(tt, tables[0], cursor, after, size);
      var next := ListPage(tt, tables[0], cursor, size).next;
      var sorted := SortDesc(Below(tables[0], after));
      if |sorted| > size {
        WalkIsWalkPositions(tt, tables[1..], next, Some(sorted[size - 1]), size);
      }
    }
  }

  function Repeat(rows: set<Key>, n: nat): seq<set<Key>> {
    if n == 0 then [] else [rows] + Repeat(rows, n - 1)
  }

  lemma {:induction false} WalkPositionsListsAll(rows: set<Key>, after: Option<Key>, size: nat, n: nat)
    requires size > 0 && n > |Below(rows, after)|
    ensures WalkPositions(Repeat(rows, n), after, size) == Walked(SortDesc(Below(rows, after)), true)
    ensures forall t :: t in Repeat(rows, n) ==> t == rows
    decreases n
  {
    var sorted := SortDesc(Below(rows, after));
    assert Repeat(rows, n)[0] == rows && Repeat(rows, n)[1..] == Repeat(rows, n - 1);
    if |sorted| > size {
      RestIsBelowLast(rows, after, size);
      WalkPositionsListsAll(rows, Some(sorted[size - 1]), size, n - 1);
    } else {
      RepeatIsConstant(rows, n);
    }
  }

  lemma {:induction false} RepeatIsConstant(rows: set<Key>, n: nat)
    ensures forall t :: t in Repeat(rows, n) ==> t == rows
  {
    if n > 0 { RepeatIsConstant(rows, n - 1); }
  }

  /** On a table that does not change the walk ends, after at most one page per
      row and one more, and lists every matching row exactly once in order. */
  lemma WalkListsEverything(
    tt: TimeText, rows: set<Key>, cursor: Text, after: Option<Key>, size: nat, n: nat)
    requires Faithful(tt) && HaveIds(rows) && size > 0 && Denotes(tt, cursor, after)
    requires n > |Below(rows, after)|
    ensures Walk(tt, Repeat(rows, n), cursor, size) == Walked(SortDesc(Below(rows, after)), true)
  {
    WalkPositionsListsAll(rows, after, size, n);
    WalkIsWalkPositions(tt, Repeat(rows, n), cursor, after, size);
  }

  ghost predicate AllBelow(q: seq<Key>, after: Option<Key>) {
    forall k :: k in q ==> after.None? || Less(k, after.value)
  }

  lemma {:induction false} PositionsNeverRepeat(tables: seq<set<Key>>, after: Option<Key>, size: nat)
    requires size > 0
    ensures Descending(WalkPositions(tables, after, size).listed)
    ensures AllBelow(WalkPositions(tables, after, size).listed, after)
    decreases |tables|
  {
    if tables != [] {
      var sorted := SortDesc(Below(tables[0], after));
      SortDescSorts(Below(tables[0], after));
      assert AllBelow(sorted, after);
      if |sorted| > size {
        var last := sorted[size - 1];
        PositionsNeverRepeat(tables[1..], Some(last), size);
        assert forall k :: k in sorted[..size] ==> k in sorted;
        Joined(sorted[..size], WalkPositions(tables[1..], Some(last), size).listed, last, after);
      }
    }
  }

  lemma Joined(front: seq<Key>, back: seq<Key>, last: Key, after: Option<Key>)
    requires Descending(front) && Descending(back) && front != [] && last == front[|front| - 1]
    requires AllBelow(front, after) && AllBelow(back, Some(last))
    ensures Descending(front + back) && AllBelow(front + back, after)
  {
    forall k | k in back ensures after.None? || Less(k, after.value) {
      if after.Some? { LessTransitive(k, last, after.value); }
    }
    forall i, j | 0 <= i < j < |front + back| ensures Less((front + back)[j], (front + back)[i]) {
      if i < |front| <= j && i < |front| - 1 {
        LessTransitive((front + back)[j], last, front[i]);
      }
    }
  }

  /** With any inserts and deletes between the pages no row is listed twice:
      the listed keys are strictly descending and below the start. */
  lemma WalkNeverRepeats(tt: TimeText, tables: seq<set<Key>>, cursor: Text, after: Option<Key>, size: nat)
    requires Faithful(tt) && size > 0 && Denotes(tt, cursor, after)
    requires forall t :: t in tables ==> HaveIds(t)
    ensures Descending(Walk(tt, tables, cursor, size).listed)
    ensures AllBelow(Walk(tt, tables, cursor, size).listed, after)
  {
    WalkIsWalkPositions(tt, tables, cursor, after, size);
    PositionsNeverRepeat(tables, after, size);
  }

  lemma {:induction false} PositionsMissNothing(tables: seq<set<Key>>, after: Option<Key>, size: nat, k: Key)
    requires size > 0 && forall t :: t in tables ==> k in t
    requires after.None? || Less(k, after.value)
    requires WalkPositions(tables, after, size).done
    ensures k in WalkPositions(tables, after, size).listed
    decreases |tables|
  {
    var sorted := SortDesc(Below(tables[0], after));
    SortDescSorts(Below(tables[0], after));
    assert k in sorted;
    var i :| 0 <= i < |sorted| && sorted[i] == k;
    if |sorted| > size {
      if i < size {
        assert sorted[..size][i] == k;
      } else {
        PositionsMissNothing(tables[1..], Some(sorted[size - 1]), size, k);
      }
    }
  }

  /** With any inserts and deletes between the pages, a walk that ends has
      listed every row below its start that was there throughout. */
  lemma WalkMissesNothing(
    tt: TimeText, tables: seq<set<Key>>, cursor: Text, after: Option<Key>, size: nat, k: Key)
    requires Faithful(tt) && size > 0 && Denotes(tt, cursor, after)
    requires forall t :: t in tables ==> HaveIds(t) && k in t
    requires after.None? || Less(k, after.value)
    requires Walk(tt, tables, cursor, size).done
    ensures k in Walk(tt, tables, cursor, size).listed
  {
    WalkIsWalkPositions(tt, tables, cursor, after, size);
    PositionsMissNothing(tables, after, size, k);
  }
}
