/** Migration 44: store the working copy of published or referenced templates
    as a snapshot, unless the newest snapshot already holds it. Times are
    clock readings, finer than the created_at column, which rounds them. */
module TemplateRelease {
  import opened Keys

  datatype Chart = Chart(
    id: Text, name: Text, repoUrl: Text, defaultValues: Text, lockedValues: Text,
    required: bool, sortOrder: int,
    sourceRepoUrl: Text, buildPipelineId: Text, path: Text, version: Text)

  datatype Template = Template(
    name: Text, description: Text, category: Text, defaultBranch: Text,
    isPublished: bool, version: Text, owner: Text)

  datatype TemplateData = TemplateData(
    name: Text, description: Text, category: Text, defaultBranch: Text, isPublished: bool, version: Text)

  datatype Snapshot = Snapshot(schemaVersion: int, template: TemplateData, charts: seq<Chart>)

  /** A stored snapshot; content is None when the text is not a snapshot. */
  datatype Version = Version(
    templateId: Text, version: Text, content: Option<Snapshot>, createdBy: Text, createdAt: int)

  /** charts[t] holds the charts of template t in the order of the query. */
  datatype Db = Db(
    templates: map<Text, Template>, charts: map<Text, seq<Chart>>,
    versions: map<Text, Version>, referenced: set<Text>)

  const SCHEMA_VERSION := 1

  /** "1.0.0" */
  const DEFAULT_VERSION: Text := [49, 46, 48, 46, 48]

  // ----- Content -----

  /** The length of the white space character that the UTF-8 text starts with,
      or 0: ASCII, U+0085, U+00A0, U+1680, U+2000 to U+200A, U+2028, U+2029,
      U+202F, U+205F and U+3000. */
  function SpaceLength(t: Text): (n: nat)
    ensures n <= |t|
  {
    if |t| >= 1 && (t[0] == 32 || 9 <= t[0] <= 13) then 1
    else if |t| >= 2 && t[0] == 0xC2 && (t[1] == 0x85 || t[1] == 0xA0) then 2
    else if |t| < 3 then 0
    else if t[0] == 0xE1 && t[1] == 0x9A && t[2] == 0x80 then 3
    else if t[0] == 0xE2 && t[1] == 0x80 && (0x80 <= t[2] <= 0x8A || t[2] in {0xA8, 0xA9, 0xAF}) then 3
    else if t[0] == 0xE2 && t[1] == 0x81 && t[2] == 0x9F then 3
    else if t[0] == 0xE3 && t[1] == 0x80 && t[2] == 0x80 then 3
    else 0
  }

  /** strings.TrimSpace(version) == "": nothing but white space characters. */
  predicate IsBlank(t: Text)
    decreases |t|
  {
    t == [] || (SpaceLength(t) > 0 && IsBlank(t[SpaceLength(t)..]))
  }

  /** The UTF-8 texts of the white space characters. */
  const WHITE_SPACE: set<Text> := {
    [9], [10], [11], [12], [13], [32], [0xC2, 0x85], [0xC2, 0xA0], [0xE1, 0x9A, 0x80],
    [0xE2, 0x80, 0x80], [0xE2, 0x80, 0x81], [0xE2, 0x80, 0x82], [0xE2, 0x80, 0x83], [0xE2, 0x80, 0x84],
    [0xE2, 0x80, 0x85], [0xE2, 0x80, 0x86], [0xE2, 0x80, 0x87], [0xE2, 0x80, 0x88], [0xE2, 0x80, 0x89],
    [0xE2, 0x80, 0x8A], [0xE2, 0x80, 0xA8], [0xE2, 0x80, 0xA9], [0xE2, 0x80, 0xAF], [0xE2, 0x81, 0x9F],
    [0xE3, 0x80, 0x80]}

  lemma SpaceIsWhiteSpace(t: Text)
    ensures SpaceLength(t) > 0 ==> t[..SpaceLength(t)] in WHITE_SPACE
  {
    var n := SpaceLength(t);
    if n == 1 {
      assert t[..1] == [t[0]];
    } else if n == 2 {
      assert t[..2] == [t[0], t[1]];
    } else if n == 3 {
      assert t[..3] == [t[0], t[1], t[2]];
    }
  }

  lemma WhiteSpaceIsSpace(w: Text, rest: Text)
    requires w in WHITE_SPACE
    ensures SpaceLength(w + rest) == |w|
  {
    var t := w + rest;
    assert t[0] == w[0];
    if |w| > 1 { assert t[1] == w[1]; }
    if |w| > 2 { assert t[2] == w[2]; }
  }

  function Joined(parts: seq<Text>): Text {
    if parts == [] then [] else parts[0] + Joined(parts[1..])
  }

  /** A blank text is any number of white space characters, and nothing else. */
  lemma {:induction false} BlankMeansWhiteSpace(parts: seq<Text>)
    requires forall w :: w in parts ==> w in WHITE_SPACE
    ensures IsBlank(Joined(parts))
  {
    if parts != [] {
      BlankMeansWhiteSpace(parts[1..]);
      WhiteSpaceIsSpace(parts[0], Joined(parts[1..]));
      assert Joined(parts)[|parts[0]|..] == Joined(parts[1..]);
    }
  }

  lemma {:induction false} BlankIsJoined(t: Text) returns (parts: seq<Text>)
    requires IsBlank(t)
    ensures (forall w :: w in parts ==> w in WHITE_SPACE) && t == Joined(parts)
    decreases |t|
  {
    if t == [] {
      parts := [];
    } else {
      var n := SpaceLength(t);
      SpaceIsWhiteSpace(t);
      var rest := BlankIsJoined(t[n..]);
      parts := [t[..n]] + rest;
      assert parts[1..] == rest && t == t[..n] + t[n..];
    }
  }

  /** The characters that NormalizeValues trims: space, tab, line breaks. */
  predicate IsTrimmed(b: Byte) {
    b == 32 || b == 9 || b == 13 || b == 10
  }

  /** Trailing spaces, tabs and line breaks do not count, and nothing else
      goes. */
  function NormalizeValues(t: Text): (r: Text)
    ensures r <= t && (forall i :: |r| <= i < |t| ==> IsTrimmed(t[i]))
    ensures r == [] || !IsTrimmed(r[|r| - 1])
  {
    if t != [] && IsTrimmed(t[|t| - 1]) then NormalizeValues(t[..|t| - 1]) else t
  }

  predicate ChartBefore(a: Chart, b: Chart) {
    a.sortOrder < b.sortOrder || (a.sortOrder == b.sortOrder && TextLess(a.name, b.name))
  }

  /** Stable insertion by sort order, then name. */
  function Insert(c: Chart, sorted: seq<Chart>): seq<Chart> {
    if sorted == [] || !ChartBefore(sorted[0], c) then [c] + sorted
    else [sorted[0]] + Insert(c, sorted[1..])
  }

  function SortCharts(charts: seq<Chart>): seq<Chart> {
    if charts == [] then [] else Insert(charts[0], SortCharts(charts[1..]))
  }

  ghost predicate IsSorted(charts: seq<Chart>) {
    forall i, j :: 0 <= i < j < |charts| ==> !ChartBefore(charts[j], charts[i])
  }

  lemma ChartOrderIsWeak(a: Chart, b: Chart, c: Chart)
    requires !ChartBefore(b, a) && !ChartBefore(c, b)
    ensures !ChartBefore(c, a)
  {
    TextLessTrichotomy(a.name, b.name);
    TextLessTrichotomy(b.name, c.name);
    TextLessTrichotomy(a.name, c.name);
    if TextLess(c.name, a.name) && TextLess(a.name, b.name) {
      TextLessTransitive(c.name, a.name, b.name);
    }
  }

  lemma {:induction false} InsertKeepsCharts(c: Chart, sorted: seq<Chart>)
    ensures multiset(Insert(c, sorted)) == multiset(sorted) + multiset{c}
  {
    if sorted != [] && ChartBefore(sorted[0], c) {
      InsertKeepsCharts(c, sorted[1..]);
      assert sorted == [sorted[0]] + sorted[1..];
    }
  }

  lemma InsertAdds(c: Chart, sorted: seq<Chart>, x: Chart)
    requires x in Insert(c, sorted)
    ensures x == c || x in sorted
  {
    InsertKeepsCharts(c, sorted);
    assert x in multiset(Insert(c, sorted));
  }

  lemma TailIsSorted(charts: seq<Chart>)
    requires charts != [] && IsSorted(charts)
    ensures IsSorted(charts[1..])
  {}

  lemma ConsSorts(c: Chart, rest: seq<Chart>)
    requires IsSorted(rest) && forall x :: x in rest ==> !ChartBefore(x, c)
    ensures IsSorted([c] + rest)
  {
    forall i, j | 0 <= i < j < |[c] + rest| ensures !ChartBefore(([c] + rest)[j], ([c] + rest)[i]) {
      assert ([c] + rest)[j] == rest[j - 1] && rest[j - 1] in rest;
    }
  }

  lemma {:induction false} InsertSorts(c: Chart, sorted: seq<Chart>)
    requires IsSorted(sorted)
    ensures IsSorted(Insert(c, sorted))
  {
    if sorted != [] && ChartBefore(sorted[0], c) {
      TailIsSorted(sorted);
      InsertSorts(c, sorted[1..]);
      TextLessTrichotomy(sorted[0].name, c.name);
      forall x | x in Insert(c, sorted[1..]) ensures !ChartBefore(x, sorted[0]) {
        InsertAdds(c, sorted[1..], x);
      }
      ConsSorts(sorted[0], Insert(c, sorted[1..]));
    } else {
      forall x | x in sorted ensures !ChartBefore(x, c) {
        var j :| 0 <= j < |sorted| && sorted[j] == x;
        if j > 0 { ChartOrderIsWeak(c, sorted[0], x); }
      }
      ConsSorts(c, sorted);
    }
  }

  /** A snapshot holds exactly the charts of the working copy, ordered by
      deploy order and name. */
  lemma {:induction false} SortChartsSorts(charts: seq<Chart>)
    ensures IsSorted(SortCharts(charts)) && multiset(SortCharts(charts)) == multiset(charts)
  {
    if charts != [] {
      SortChartsSorts(charts[1..]);
      InsertSorts(charts[0], SortCharts(charts[1..]));
      InsertKeepsCharts(charts[0], SortCharts(charts[1..]));
      assert charts == [charts[0]] + charts[1..];
    }
  }

  /** The charts with one sort order and name, in their order. */
  function OfKey(charts: seq<Chart>, sortOrder: int, name: Text): seq<Chart> {
    if charts == [] then []
    else (if charts[0].sortOrder == sortOrder && charts[0].name == name then [charts[0]] else [])
         + OfKey(charts[1..], sortOrder, name)
  }

  lemma {:induction false} InsertIsStable(c: Chart, sorted: seq<Chart>, sortOrder: int, name: Text)
    ensures OfKey(Insert(c, sorted), sortOrder, name) == OfKey([c] + sorted, sortOrder, name)
  {
    if sorted != [] && ChartBefore(sorted[0], c) {
      InsertIsStable(c, sorted[1..], sortOrder, name);
      TextLessTrichotomy(sorted[0].name, c.name);
      assert Insert(c, sorted)[1..] == Insert(c, sorted[1..]);
      assert ([c] + sorted)[1..] == sorted && ([c] + sorted[1..])[1..] == sorted[1..];
    }
  }

  /** The sort is stable: charts with the same order and name keep their
      order. */
  lemma {:induction false} SortChartsIsStable(charts: seq<Chart>, sortOrder: int, name: Text)
    ensures OfKey(SortCharts(charts), sortOrder, name) == OfKey(charts, sortOrder, name)
  {
    if charts != [] {
      SortChartsIsStable(charts[1..], sortOrder, name);
      InsertIsStable(charts[0], SortCharts(charts[1..]), sortOrder, name);
      assert ([charts[0]] + SortCharts(charts[1..]))[1..] == SortCharts(charts[1..]);
    }
  }

  predicate SameChart(x: Chart, y: Chart, legacy: bool) {
    && x.name == y.name && x.repoUrl == y.repoUrl
    && NormalizeValues(x.defaultValues) == NormalizeValues(y.defaultValues)
    && NormalizeValues(x.lockedValues) == NormalizeValues(y.lockedValues)
    && x.required == y.required && x.sortOrder == y.sortOrder
    && (legacy || (x.sourceRepoUrl == y.sourceRepoUrl && x.buildPipelineId == y.buildPipelineId
                   && x.path == y.path && x.version == y.version))
  }

  /** What the content comparison means, also with a snapshot of the older
      format, which lacks four chart fields. */
  lemma SameContentMeans(a: Snapshot, b: Snapshot)
    ensures var older := a.schemaVersion < 1 || b.schemaVersion < 1;
      SameTemplateContent(a, b) <==>
        && a.template.name == b.template.name && a.template.description == b.template.description
        && a.template.category == b.template.category && a.template.defaultBranch == b.template.defaultBranch
        && a.template.version == b.template.version
        && var x, y := SortCharts(a.charts), SortCharts(b.charts);
           && |x| == |y|
           && forall i :: 0 <= i < |x| ==>
                if older
                then ChartsAgree(x[i], y[i].(sourceRepoUrl := x[i].sourceRepoUrl, path := x[i].path,
                                             buildPipelineId := x[i].buildPipelineId, version := x[i].version))
                else ChartsAgree(x[i], y[i])
  {}

  predicate SameTemplateContent(a: Snapshot, b: Snapshot) {
    var ac, bc := SortCharts(a.charts), SortCharts(b.charts);
    && a.template.name == b.template.name && a.template.description == b.template.description
    && a.template.category == b.template.category && a.template.defaultBranch == b.template.defaultBranch
    && a.template.version == b.template.version
    && |ac| == |bc|
    && forall i :: 0 <= i < |ac| ==> SameChart(ac[i], bc[i], a.schemaVersion < 1 || b.schemaVersion < 1)
  }

  /** NewTemplateSnapshot. */
  function NewSnapshot(tmpl: Template, charts: seq<Chart>): Snapshot {
    Snapshot(SCHEMA_VERSION,
             TemplateData(tmpl.name, tmpl.description, tmpl.category, tmpl.defaultBranch,
                          tmpl.isPublished, tmpl.version),
             SortCharts(charts))
  }

  /** A release needs a version: a blank one becomes the default. */
  function Versioned(tmpl: Template): Template {
    tmpl.(version := if IsBlank(tmpl.version) then DEFAULT_VERSION else tmpl.version)
  }

  function ChartsOf(charts: map<Text, seq<Chart>>, t: Text): seq<Chart> {
    if t in charts then charts[t] else []
  }

  /** The working copy as a snapshot in the current format. */
  function Working(db: Db, t: Text): Snapshot
    requires t in db.templates
  {
    NewSnapshot(Versioned(db.templates[t]), ChartsOf(db.charts, t))
  }

  /** A stable sort leaves sorted charts as they are. */
  lemma {:induction false} SortOfSorted(charts: seq<Chart>)
    requires IsSorted(charts)
    ensures SortCharts(charts) == charts
  {
    if charts != [] {
      TailIsSorted(charts);
      SortOfSorted(charts[1..]);
      assert charts == [charts[0]] + charts[1..];
    }
  }

  /** What a release of the template row with these charts stores: its fields,
      its version or "1.0.0" for a blank one, and all its charts, ordered by
      deploy order, then name. */
  ghost predicate IsSnapshotOf(content: Snapshot, tmpl: Template, charts: seq<Chart>) {
    && content.schemaVersion == 1
    && content.template.name == tmpl.name && content.template.description == tmpl.description
    && content.template.category == tmpl.category && content.template.defaultBranch == tmpl.defaultBranch
    && (content.template.isPublished <==> tmpl.isPublished)
    && IsReleaseVersion(content.template.version, tmpl.version)
    && multiset(content.charts) == multiset(charts)
    && (forall i, j :: 0 <= i < j < |content.charts| ==>
          || content.charts[i].sortOrder < content.charts[j].sortOrder
          || (content.charts[i].sortOrder == content.charts[j].sortOrder
              && !TextLess(content.charts[j].name, content.charts[i].name)))
    && (forall order, name :: OfKey(content.charts, order, name) == OfKey(charts, order, name))
  }

  predicate IsReleaseVersion(released: Text, version: Text) {
    released == if IsBlank(version)
                then ['1' as int, '.' as int, '0' as int, '.' as int, '0' as int] else version
  }

  lemma WorkingIsSnapshot(db: Db, t: Text)
    requires t in db.templates
    ensures IsSnapshotOf(Working(db, t), db.templates[t], ChartsOf(db.charts, t))
  {
    var charts := ChartsOf(db.charts, t);
    SortChartsSorts(charts);
    forall i, j | 0 <= i < j < |SortCharts(charts)|
      ensures SortCharts(charts)[i].sortOrder < SortCharts(charts)[j].sortOrder
        || (SortCharts(charts)[i].sortOrder == SortCharts(charts)[j].sortOrder
            && !TextLess(SortCharts(charts)[j].name, SortCharts(charts)[i].name))
    {
      assert !ChartBefore(SortCharts(charts)[j], SortCharts(charts)[i]);
    }
    forall order, name ensures OfKey(SortCharts(charts), order, name) == OfKey(charts, order, name) {
      SortChartsIsStable(charts, order, name);
    }
  }

  /** The charts agree in every compared field; values without trailing spaces,
      tabs and line breaks. */
  predicate ChartsAgree(x: Chart, y: Chart) {
    && x.name == y.name && x.repoUrl == y.repoUrl && x.required == y.required && x.sortOrder == y.sortOrder
    && x.sourceRepoUrl == y.sourceRepoUrl && x.buildPipelineId == y.buildPipelineId
    && x.path == y.path && x.version == y.version
    && NormalizeValues(x.defaultValues) == NormalizeValues(y.defaultValues)
    && NormalizeValues(x.lockedValues) == NormalizeValues(y.lockedValues)
  }

  predicate PairsAgree(a: seq<Chart>, b: seq<Chart>) {
    |a| == |b| && forall i :: 0 <= i < |a| ==> ChartsAgree(a[i], b[i])
  }

  /** The stored content is readable, in the current schema and equal to the
      working copy; the publish state and the chart ids are not compared. */
  ghost predicate HoldsTheWorkingCopy(content: Option<Snapshot>, tmpl: Template, charts: seq<Chart>) {
    && content.Some? && content.value.schemaVersion >= 1
    && content.value.template.name == tmpl.name && content.value.template.description == tmpl.description
    && content.value.template.category == tmpl.category
    && content.value.template.defaultBranch == tmpl.defaultBranch
    && IsReleaseVersion(content.value.template.version, tmpl.version)
    && PairsAgree(SortCharts(content.value.charts), SortCharts(charts))
  }

  lemma CurrentMeansTheWorkingCopy(db: Db, t: Text, content: Option<Snapshot>)
    requires t in db.templates
    ensures IsCurrent(content, Working(db, t)) <==>
      HoldsTheWorkingCopy(content, db.templates[t], ChartsOf(db.charts, t))
  {
    var charts := ChartsOf(db.charts, t);
    SortChartsSorts(charts);
    SortOfSorted(SortCharts(charts));
    if content.Some? && content.value.schemaVersion >= 1 {
      assert forall x, y :: SameChart(x, y, false) <==> ChartsAgree(x, y);
    }
  }

  predicate IsCurrent(content: Option<Snapshot>, working: Snapshot) {
    content.Some? && content.value.schemaVersion >= SCHEMA_VERSION && SameTemplateContent(content.value, working)
  }

  // ----- The newest snapshot -----

  function KeyOf(versions: map<Text, Version>, v: Text): Key
    requires v in versions
  {
    Key(versions[v].createdAt, v)
  }

  /** ORDER BY created_at DESC, id DESC LIMIT 1. */
  predicate IsNewest(versions: map<Text, Version>, t: Text, v: Text) {
    && v in versions && versions[v].templateId == t
    && forall x :: x in versions && versions[x].templateId == t && x != v ==>
         Less(KeyOf(versions, x), KeyOf(versions, v))
  }

  predicate HasSnapshot(versions: map<Text, Version>, t: Text) {
    exists v :: v in versions && versions[v].templateId == t
  }

  lemma NewestExists(versions: map<Text, Version>, t: Text)
    requires HasSnapshot(versions, t)
    ensures exists v :: v in versions && IsNewest(versions, t, v)
  {
    var keys := set v | v in versions && versions[v].templateId == t :: KeyOf(versions, v);
    var any :| any in versions && versions[any].templateId == t;
    assert KeyOf(versions, any) in keys;
    var g := Greatest(keys).id;
    forall x | x in versions && versions[x].templateId == t && x != g
      ensures Less(KeyOf(versions, x), KeyOf(versions, g))
    {
      assert KeyOf(versions, x) in keys;
    }
    assert IsNewest(versions, t, g);
  }

  lemma NewestIsUnique(versions: map<Text, Version>, t: Text, v: Text, w: Text)
    requires IsNewest(versions, t, v) && IsNewest(versions, t, w)
    ensures v == w
  {
    LessTrichotomy(KeyOf(versions, v), KeyOf(versions, w));
  }

  /** The templates that must have a current snapshot: the published ones, and
      the referenced ones that were ever released. */
  predicate MustRelease(db: Db, t: Text) {
    t in db.templates && (db.templates[t].isPublished || (t in db.referenced && HasSnapshot(db.versions, t)))
  }

  ghost predicate IsReleased(db: Db, t: Text) {
    t in db.templates && exists v :: IsNewest(db.versions, t, v) && IsCurrent(db.versions[v].content, Working(db, t))
  }

  ghost predicate Restored(db: Db) {
    forall t :: MustRelease(db, t) ==> IsReleased(db, t)
  }

  ghost predicate NeedsRelease(db: Db, t: Text) {
    MustRelease(db, t) && !IsReleased(db, t)
  }

  /** The template row has the version of its newest snapshot. */
  ghost predicate AgreesInVersion(db: Db, t: Text) {
    && t in db.templates
    && exists v ::
         && IsNewest(db.versions, t, v) && db.versions[v].content.Some?
         && db.versions[v].content.value.template.version == db.templates[t].version
  }

  /** next has the snapshots of db, unchanged, and perhaps new ones. */
  ghost predicate KeepsHistory(db: Db, next: Db) {
    && forall v :: v in db.versions ==> v in next.versions && next.versions[v] == db.versions[v]
  }

  // ----- The clock and the column -----

  /** One millisecond; clock readings are in microseconds. */
  const MILLI := 1000

  /** How the column stores a clock reading. */
  ghost predicate IsRounding(round: int -> int) {
    && (forall a, b :: a <= b ==> round(a) <= round(b))
    && (forall a, b :: b == a + MILLI ==> round(b) == round(a) + MILLI)
    && (forall a {:trigger round(round(a))} :: round(round(a)) == round(a))
  }

  /** The column of MySQL: to the nearest millisecond. */
  function ToMillis(a: int): int {
    (a + MILLI / 2) / MILLI * MILLI
  }

  lemma ToMillisIsRounding()
    ensures IsRounding(ToMillis)
  {
    forall a, b | a <= b ensures ToMillis(a) <= ToMillis(b) { ToMillisIsMonotone(a, b); }
    forall a, b | b == a + MILLI ensures ToMillis(b) == ToMillis(a) + MILLI { ToMillisShifts(a); }
    forall a ensures ToMillis(ToMillis(a)) == ToMillis(a) { ToMillisKeeps((a + MILLI / 2) / MILLI); }
  }

  lemma ToMillisIsMonotone(a: int, b: int)
    requires a <= b
    ensures ToMillis(a) <= ToMillis(b)
  {}

  lemma ToMillisKeeps(n: int)
    ensures ToMillis(n * MILLI) == n * MILLI
  {
    assert (n * MILLI + MILLI / 2) / MILLI == n;
  }

  lemma ToMillisShifts(a: int)
    ensures ToMillis(a + MILLI) == ToMillis(a) + MILLI
  {
    assert (a + MILLI + MILLI / 2) / MILLI == (a + MILLI / 2) / MILLI + 1;
  }

  ghost predicate InColumn(db: Db, round: int -> int) {
    forall v :: v in db.versions ==> round(db.versions[v].createdAt) == db.versions[v].createdAt
  }

  /** The stored time of a new snapshot of t at clock reading now: a clock that
      is not after the newest snapshot gives the next millisecond. */
  ghost predicate IsStoredTime(db: Db, t: Text, now: int, round: int -> int, at: int) {
    && (!HasSnapshot(db.versions, t) ==> at == round(now))
    && (forall v :: IsNewest(db.versions, t, v) ==>
          at == round(if now <= db.versions[v].createdAt then db.versions[v].createdAt + MILLI else now))
  }

  lemma StoredTimeOf(db: Db, t: Text, now: int, round: int -> int, latest: Option<Text>, at: int)
    requires latest.None? <==> !HasSnapshot(db.versions, t)
    requires latest.Some? ==> IsNewest(db.versions, t, latest.value)
    requires at == round(if latest.Some? && now <= db.versions[latest.value].createdAt
                         then db.versions[latest.value].createdAt + MILLI else now)
    ensures IsStoredTime(db, t, now, round, at)
  {
    forall v | IsNewest(db.versions, t, v) ensures latest == Some(v) {
      assert HasSnapshot(db.versions, t);
      NewestIsUnique(db.versions, t, v, latest.value);
    }
  }

  lemma StoredTimeIsRounded(db: Db, t: Text, now: int, round: int -> int, at: int)
    requires IsRounding(round) && IsStoredTime(db, t, now, round, at)
    ensures round(at) == at
  {
    if HasSnapshot(db.versions, t) {
      NewestExists(db.versions, t);
      var v :| v in db.versions && IsNewest(db.versions, t, v);
      var reading := if now <= db.versions[v].createdAt then db.versions[v].createdAt + MILLI else now;
      assert round(round(reading)) == round(reading) == at;
    } else {
      assert round(round(now)) == round(now) == at;
    }
  }

  lemma ColumnStays(db: Db, t: Text, now: int, round: int -> int, id: Text, at: int)
    requires IsRounding(round) && InColumn(db, round) && IsStoredTime(db, t, now, round, at) && t in db.templates
    ensures InColumn(WithSnapshot(db, t, id, at), round)
  {
    StoredTimeIsRounded(db, t, now, round, at);
  }

  /** The clock is after the newest snapshot of t, but the column rounds it onto
      that snapshot, and the new id does not sort after it. */
  ghost predicate LosesTheTie(db: Db, t: Text, now: int, round: int -> int, id: Text) {
    exists v :: IsNewest(db.versions, t, v)
      && now > db.versions[v].createdAt == round(now) && !TextLess(v, id)
  }

  /** (at, id) is above every snapshot of t. */
  ghost predicate IsAbove(versions: map<Text, Version>, t: Text, at: int, id: Text) {
    forall v :: v in versions && versions[v].templateId == t ==> Less(KeyOf(versions, v), Key(at, id))
  }

  /** The new snapshot is the newest one unless it loses a tie. */
  lemma OnlyALostTieIsNotAbove(db: Db, t: Text, now: int, round: int -> int, id: Text, at: int)
    requires IsRounding(round) && InColumn(db, round) && IsStoredTime(db, t, now, round, at)
    ensures IsAbove(db.versions, t, at, id) <==> !LosesTheTie(db, t, now, round, id)
  {
    if HasSnapshot(db.versions, t) {
      NewestExists(db.versions, t);
      var v :| v in db.versions && IsNewest(db.versions, t, v);
      var l := db.versions[v].createdAt;
      assert round(l) == l && round(l + MILLI) == l + MILLI;
      assert at == if now <= l then l + MILLI else round(now);
      assert now > l ==> round(now) >= l;
      forall w | IsNewest(db.versions, t, w) ensures w == v { NewestIsUnique(db.versions, t, w, v); }
      NewestIsEnough(db.versions, t, v, at, id);
    }
  }

  lemma NewestIsEnough(versions: map<Text, Version>, t: Text, v: Text, at: int, id: Text)
    requires IsNewest(versions, t, v)
    ensures IsAbove(versions, t, at, id) <==> Less(KeyOf(versions, v), Key(at, id))
  {
    if Less(KeyOf(versions, v), Key(at, id)) {
      forall x | x in versions && versions[x].templateId == t && x != v ensures Less(KeyOf(versions, x), Key(at, id)) {
        LessTransitive(KeyOf(versions, x), KeyOf(versions, v), Key(at, id));
      }
    }
  }

  // ----- One template -----

  /** db after the new snapshot id of template t. */
  function WithSnapshot(db: Db, t: Text, id: Text, createdAt: int): Db
    requires t in db.templates
  {
    var w := Working(db, t);
    db.(versions := db.versions[id := Version(t, w.template.version, Some(w), db.templates[t].owner, createdAt)],
        templates := db.templates[t := Versioned(db.templates[t])])
  }

  lemma WorkingIsCurrent(db: Db, t: Text)
    requires t in db.templates
    ensures IsCurrent(Some(Working(db, t)), Working(db, t))
  {}

  lemma DefaultIsNotBlank()
    ensures !IsBlank(DEFAULT_VERSION)
  {
    assert SpaceLength(DEFAULT_VERSION) == 0;
  }

  lemma WorkingIsStable(db: Db, t: Text, id: Text, createdAt: int)
    requires t in db.templates
    ensures Working(WithSnapshot(db, t, id, createdAt), t) == Working(db, t)
  {
    DefaultIsNotBlank();
  }

  /** A template whose newest snapshot is stale is not released. */
  lemma StaleIsNotReleased(db: Db, t: Text, latest: Text)
    requires t in db.templates && IsNewest(db.versions, t, latest)
    requires !IsCurrent(db.versions[latest].content, Working(db, t))
    ensures !IsReleased(db, t)
  {
    forall v | IsNewest(db.versions, t, v) ensures v == latest {
      NewestIsUnique(db.versions, t, v, latest);
    }
  }

  lemma CurrentIsReleased(db: Db, t: Text, latest: Text)
    requires t in db.templates && IsNewest(db.versions, t, latest)
    requires IsCurrent(db.versions[latest].content, Working(db, t))
    ensures IsReleased(db, t)
  {}

  /** The template that the loop does not skip. */
  lemma NewIsNeeded(db: Db, t: Text, latest: Option<Text>)
    requires t in db.templates && (db.templates[t].isPublished || t in db.referenced)
    requires latest.None? ==> db.templates[t].isPublished && !HasSnapshot(db.versions, t)
    requires latest.Some? ==>
      IsNewest(db.versions, t, latest.value) && !IsCurrent(db.versions[latest.value].content, Working(db, t))
    ensures NeedsRelease(db, t)
  {
    if latest.Some? {
      StaleIsNotReleased(db, t, latest.value);
      assert HasSnapshot(db.versions, t);
    } else {
      assert forall v :: v in db.versions ==> db.versions[v].templateId != t;
    }
  }

  lemma AboveIsNewest(db: Db, t: Text, id: Text, createdAt: int)
    requires t in db.templates && id !in db.versions
    ensures IsNewest(WithSnapshot(db, t, id, createdAt).versions, t, id) <==> IsAbove(db.versions, t, createdAt, id)
  {
    var next := WithSnapshot(db, t, id, createdAt).versions;
    assert forall x :: x in db.versions ==> x in next && x != id && KeyOf(next, x) == KeyOf(db.versions, x);
    assert KeyOf(next, id) == Key(createdAt, id) && next[id].templateId == t;
  }

  lemma NewestBefore(db: Db, t: Text, id: Text, createdAt: int, v: Text)
    requires t in db.templates && id !in db.versions && v != id
    requires IsNewest(WithSnapshot(db, t, id, createdAt).versions, t, v)
    ensures IsNewest(db.versions, t, v) && WithSnapshot(db, t, id, createdAt).versions[v] == db.versions[v]
  {
    var next := WithSnapshot(db, t, id, createdAt).versions;
    assert forall x :: x in db.versions ==>
      x in next && next[x] == db.versions[x] && KeyOf(next, x) == KeyOf(db.versions, x);
  }

  /** A new snapshot of the working copy releases a template that was not
      released exactly when it is above all other snapshots. */
  lemma SnapshotReleases(db: Db, t: Text, id: Text, createdAt: int)
    requires t in db.templates && id !in db.versions && !IsReleased(db, t)
    ensures var next := WithSnapshot(db, t, id, createdAt);
      && (IsReleased(next, t) <==> IsAbove(db.versions, t, createdAt, id))
      && (IsReleased(next, t) ==> AgreesInVersion(next, t))
  {
    var next := WithSnapshot(db, t, id, createdAt);
    WorkingIsStable(db, t, id, createdAt);
    WorkingIsCurrent(db, t);
    AboveIsNewest(db, t, id, createdAt);
    assert next.versions[id].content == Some(Working(next, t));
    if IsReleased(next, t) {
      var v :| IsNewest(next.versions, t, v) && IsCurrent(next.versions[v].content, Working(next, t));
      if v != id { NewestBefore(db, t, id, createdAt, v); }
      assert IsNewest(next.versions, t, id);
    }
  }

  /** A released template differs in the version from its newest snapshot
      exactly when its own version is blank: the snapshot has the default. */
  lemma OnlyABlankVersionDiffers(db: Db, t: Text)
    requires IsReleased(db, t)
    ensures AgreesInVersion(db, t) <==> !IsBlank(db.templates[t].version)
  {
    DefaultIsNotBlank();
    var v :| IsNewest(db.versions, t, v) && IsCurrent(db.versions[v].content, Working(db, t));
    forall w | IsNewest(db.versions, t, w) ensures w == v { NewestIsUnique(db.versions, t, w, v); }
  }

  /** The newest snapshot of t, by time and then id, holds the working copy. */
  ghost predicate IsUpToDate(db: Db, t: Text) {
    && t in db.templates
    && exists v :: v in db.versions && db.versions[v].templateId == t
         && HoldsTheWorkingCopy(db.versions[v].content, db.templates[t], ChartsOf(db.charts, t))
         && forall x :: x in db.versions && db.versions[x].templateId == t && x != v ==>
              || db.versions[x].createdAt < db.versions[v].createdAt
              || (db.versions[x].createdAt == db.versions[v].createdAt && TextLess(x, v))
  }

  lemma ReleasedMeansUpToDate(db: Db, t: Text)
    ensures IsReleased(db, t) <==> IsUpToDate(db, t)
  {
    if t in db.templates {
      forall v | v in db.versions
        ensures IsCurrent(db.versions[v].content, Working(db, t)) <==>
          HoldsTheWorkingCopy(db.versions[v].content, db.templates[t], ChartsOf(db.charts, t))
      {
        CurrentMeansTheWorkingCopy(db, t, db.versions[v].content);
      }
      forall v | v in db.versions && db.versions[v].templateId == t
        ensures IsNewest(db.versions, t, v) <==>
          forall x :: x in db.versions && db.versions[x].templateId == t && x != v ==>
            || db.versions[x].createdAt < db.versions[v].createdAt
            || (db.versions[x].createdAt == db.versions[v].createdAt && TextLess(x, v))
      {}
    }
  }

  // ----- What happens to a template depends only on its own rows -----

  /** The rows of template t are the same in a and b. */
  ghost predicate SameAt(a: Db, b: Db, t: Text) {
    && (t in a.templates <==> t in b.templates) && (t in a.templates ==> a.templates[t] == b.templates[t])
    && ChartsOf(a.charts, t) == ChartsOf(b.charts, t) && (t in a.referenced <==> t in b.referenced)
    && (forall v :: v in a.versions && a.versions[v].templateId == t ==>
          v in b.versions && b.versions[v] == a.versions[v])
    && (forall v :: v in b.versions && b.versions[v].templateId == t ==>
          v in a.versions && a.versions[v] == b.versions[v])
  }

  lemma SameNewest(a: Db, b: Db, t: Text, v: Text)
    requires SameAt(a, b, t) && IsNewest(a.versions, t, v)
    ensures IsNewest(b.versions, t, v) && a.versions[v] == b.versions[v]
  {
    forall x | x in b.versions && b.versions[x].templateId == t && x != v
      ensures Less(KeyOf(b.versions, x), KeyOf(b.versions, v))
    {
      assert KeyOf(a.versions, x) == KeyOf(b.versions, x);
    }
  }

  lemma SameAtHalf(a: Db, b: Db, t: Text)
    requires SameAt(a, b, t)
    ensures MustRelease(a, t) ==> MustRelease(b, t)
    ensures IsReleased(a, t) ==> IsReleased(b, t)
    ensures AgreesInVersion(a, t) ==> AgreesInVersion(b, t)
  {
    if IsReleased(a, t) {
      var v :| IsNewest(a.versions, t, v) && IsCurrent(a.versions[v].content, Working(a, t));
      SameNewest(a, b, t, v);
    }
    if AgreesInVersion(a, t) {
      var v :| IsNewest(a.versions, t, v) && a.versions[v].content.Some?
        && a.versions[v].content.value.template.version == a.templates[t].version;
      SameNewest(a, b, t, v);
    }
    if HasSnapshot(a.versions, t) {
      var v :| v in a.versions && a.versions[v].templateId == t;
      assert v in b.versions && b.versions[v].templateId == t;
    }
  }

  lemma SameAtDecidesAlike(a: Db, b: Db, t: Text)
    requires SameAt(a, b, t)
    ensures MustRelease(a, t) <==> MustRelease(b, t)
    ensures IsReleased(a, t) <==> IsReleased(b, t)
    ensures AgreesInVersion(a, t) <==> AgreesInVersion(b, t)
  {
    SameAtHalf(a, b, t);
    SameAtHalf(b, a, t);
  }

  lemma SameStoredTime(a: Db, b: Db, t: Text, now: int, round: int -> int, at: int)
    requires SameAt(a, b, t) && IsStoredTime(a, t, now, round, at)
    ensures IsStoredTime(b, t, now, round, at)
  {
    forall v | IsNewest(b.versions, t, v)
      ensures at == round(if now <= b.versions[v].createdAt then b.versions[v].createdAt + MILLI else now)
    {
      SameNewest(b, a, t, v);
    }
    if HasSnapshot(a.versions, t) {
      var v :| v in a.versions && a.versions[v].templateId == t;
      assert v in b.versions && b.versions[v].templateId == t;
    }
  }

  /** The release of one template touches no other one. */
  lemma OthersAreUntouched(db: Db, t: Text, id: Text, createdAt: int, other: Text)
    requires t in db.templates && id !in db.versions && other != t
    ensures SameAt(WithSnapshot(db, t, id, createdAt), db, other)
  {}

  lemma SameAtAfterSnapshot(a: Db, b: Db, t: Text, id: Text, createdAt: int)
    requires SameAt(a, b, t) && t in a.templates && id !in a.versions && id !in b.versions
    ensures SameAt(WithSnapshot(a, t, id, createdAt), WithSnapshot(b, t, id, createdAt), t)
  {}

  // ----- The migration -----

  /** The new snapshot of a template: its id and its stored time. */
  datatype Created = Created(id: Text, at: int)

  /** What the migration may have done for template t, from start to db. */
  ghost predicate IsMigrated(
    start: Db, db: Db, t: Text, created: map<Text, Created>, clock: Text -> int, round: int -> int)
  {
    if t in created then
      && NeedsRelease(start, t) && created[t].id !in start.versions && created[t].id in db.versions
      && IsStoredTime(start, t, clock(t), round, created[t].at)
      && SameAt(db, WithSnapshot(start, t, created[t].id, created[t].at), t)
    else SameAt(db, start, t)
  }

  /** The progress of the loop: the templates outside todo are done. */
  ghost predicate Progress(
    start: Db, db: Db, todo: set<Text>, created: map<Text, Created>, clock: Text -> int, round: int -> int)
  {
    && db.templates.Keys == start.templates.Keys && KeepsHistory(start, db)
    && (forall t {:trigger IsMigrated(start, db, t, created, clock, round)} ::
          t in db.templates ==> IsMigrated(start, db, t, created, clock, round))
    && (forall t :: t in created ==> t in db.templates && t !in todo)
    && (forall t {:trigger NeedsRelease(start, t)} ::
          t in db.templates && t !in todo && NeedsRelease(start, t) ==> t in created)
    && (created == map[] ==> db == start)
  }

  lemma OwnIsMigrated(
    start: Db, db: Db, created: map<Text, Created>, clock: Text -> int, round: int -> int, t: Text, id: Text, at: int)
    requires t in db.templates && t !in created && IsMigrated(start, db, t, created, clock, round)
    requires NeedsRelease(db, t) && id !in db.versions && id !in start.versions
    requires IsStoredTime(db, t, clock(t), round, at)
    ensures IsMigrated(start, WithSnapshot(db, t, id, at), t, created[t := Created(id, at)], clock, round)
    ensures NeedsRelease(start, t)
  {
    SameAtDecidesAlike(db, start, t);
    SameStoredTime(db, start, t, clock(t), round, at);
    SameAtAfterSnapshot(db, start, t, id, at);
  }

  lemma AllStayMigrated(
    start: Db, db: Db, todo: set<Text>, created: map<Text, Created>, clock: Text -> int, round: int -> int,
    t: Text, id: Text, at: int)
    requires Progress(start, db, todo, created, clock, round)
    requires t in todo && NeedsRelease(db, t) && id !in db.versions && IsStoredTime(db, t, clock(t), round, at)
    ensures NeedsRelease(start, t)
    ensures forall x {:trigger IsMigrated(
        start, WithSnapshot(db, t, id, at), x, created[t := Created(id, at)], clock, round)} ::
      x in db.templates ==>
        IsMigrated(start, WithSnapshot(db, t, id, at), x, created[t := Created(id, at)], clock, round)
  {
    var next, more := WithSnapshot(db, t, id, at), created[t := Created(id, at)];
    assert IsMigrated(start, db, t, created, clock, round);
    OwnIsMigrated(start, db, created, clock, round, t, id, at);
    forall x | x in db.templates ensures IsMigrated(start, next, x, more, clock, round) {
      if x != t {
        assert IsMigrated(start, db, x, created, clock, round);
        OtherStaysMigrated(start, db, created, clock, round, t, id, at, x);
      }
    }
  }

  lemma ReleaseAdvances(
    start: Db, db: Db, todo: set<Text>, created: map<Text, Created>, clock: Text -> int, round: int -> int,
    t: Text, id: Text, at: int)
    requires Progress(start, db, todo, created, clock, round)
    requires t in todo && NeedsRelease(db, t) && id !in db.versions && IsStoredTime(db, t, clock(t), round, at)
    ensures Progress(start, WithSnapshot(db, t, id, at), todo - {t}, created[t := Created(id, at)], clock, round)
  {
    AllStayMigrated(start, db, todo, created, clock, round, t, id, at);
    var next, more := WithSnapshot(db, t, id, at), created[t := Created(id, at)];
    assert next.templates.Keys == db.templates.Keys;
    assert t in more && forall x :: x in created ==> x in more;
  }

  lemma OtherStaysMigrated(
    start: Db, db: Db, created: map<Text, Created>, clock: Text -> int, round: int -> int,
    t: Text, id: Text, at: int, other: Text)
    requires t in db.templates && id !in db.versions && other != t
    requires IsMigrated(start, db, other, created, clock, round)
    ensures IsMigrated(start, WithSnapshot(db, t, id, at), other, created[t := Created(id, at)], clock, round)
  {
    OthersAreUntouched(db, t, id, at, other);
    var next := WithSnapshot(db, t, id, at);
    if other in created {
      SameAtTransitive(next, db, WithSnapshot(start, other, created[other].id, created[other].at), other);
    } else {
      SameAtTransitive(next, db, start, other);
    }
  }

  lemma SameAtTransitive(a: Db, b: Db, c: Db, t: Text)
    requires SameAt(a, b, t) && SameAt(b, c, t)
    ensures SameAt(a, c, t)
  {}

  lemma SkipAdvances(
    start: Db, db: Db, todo: set<Text>, created: map<Text, Created>, clock: Text -> int, round: int -> int, t: Text)
    requires Progress(start, db, todo, created, clock, round) && t in todo && !NeedsRelease(db, t)
    ensures Progress(start, db, todo - {t}, created, clock, round)
  {
    if t in db.templates {
      assert IsMigrated(start, db, t, created, clock, round) && t !in created;
      SameAtDecidesAlike(db, start, t);
    }
  }

  /** What the migration did for one template. */
  lemma MigratedTemplate(
    start: Db, db: Db, t: Text, created: map<Text, Created>, clock: Text -> int, round: int -> int)
    requires Progress(start, db, {}, created, clock, round) && t in db.templates
    requires IsRounding(round) && InColumn(start, round)
    ensures t in created <==> NeedsRelease(start, t)
    ensures MustRelease(db, t) <==> MustRelease(start, t)
    ensures t in created ==> (IsReleased(db, t) <==> !LosesTheTie(start, t, clock(t), round, created[t].id))
    ensures t !in created ==> (IsReleased(db, t) <==> IsReleased(start, t))
    ensures IsReleased(db, t) ==>
      (AgreesInVersion(db, t) <==> !(IsBlank(start.templates[t].version) && IsReleased(start, t)))
  {
    assert IsMigrated(start, db, t, created, clock, round);
    if t in created {
      var made := created[t];
      var next := WithSnapshot(start, t, made.id, made.at);
      SameAtDecidesAlike(db, next, t);
      SnapshotReleases(start, t, made.id, made.at);
      OnlyALostTieIsNotAbove(start, t, clock(t), round, made.id, made.at);
      assert made.id in next.versions && next.versions[made.id].templateId == t;
    } else {
      SameAtDecidesAlike(db, start, t);
      if IsReleased(start, t) { OnlyABlankVersionDiffers(start, t); }
    }
  }

  lemma CreatedAreNeeded(start: Db, db: Db, created: map<Text, Created>, clock: Text -> int, round: int -> int)
    requires Progress(start, db, {}, created, clock, round) && IsRounding(round) && InColumn(start, round)
    ensures forall t :: t in created <==> NeedsRelease(start, t)
    ensures Restored(start) ==> db == start
  {
    forall t ensures t in created <==> NeedsRelease(start, t) {
      if t in db.templates { MigratedTemplate(start, db, t, created, clock, round); }
    }
    if Restored(start) {
      forall t ensures t !in created { assert !NeedsRelease(start, t); }
      assert created == map[];
    }
  }

  lemma RestoredUnlessTied(start: Db, db: Db, created: map<Text, Created>, clock: Text -> int, round: int -> int)
    requires Progress(start, db, {}, created, clock, round) && IsRounding(round) && InColumn(start, round)
    ensures Restored(db) <==> forall t :: t in created ==> !LosesTheTie(start, t, clock(t), round, created[t].id)
  {
    if Restored(db) {
      forall t | t in created ensures !LosesTheTie(start, t, clock(t), round, created[t].id) {
        MigratedTemplate(start, db, t, created, clock, round);
      }
    }
    if forall t :: t in created ==> !LosesTheTie(start, t, clock(t), round, created[t].id) {
      forall t | MustRelease(db, t) ensures IsReleased(db, t) {
        MigratedTemplate(start, db, t, created, clock, round);
      }
    }
  }

  lemma VersionsAgree(
    start: Db, db: Db, created: map<Text, Created>, clock: Text -> int, round: int -> int, t: Text)
    requires Progress(start, db, {}, created, clock, round) && IsRounding(round) && InColumn(start, round)
    requires IsReleased(db, t)
    ensures t in start.templates
    ensures AgreesInVersion(db, t) <==> !(IsBlank(start.templates[t].version) && IsReleased(start, t))
  {
    MigratedTemplate(start, db, t, created, clock, round);
  }

  lemma AllVersionsAgree(start: Db, db: Db, created: map<Text, Created>, clock: Text -> int, round: int -> int)
    requires Progress(start, db, {}, created, clock, round) && IsRounding(round) && InColumn(start, round)
    ensures forall t :: IsReleased(db, t) ==>
      && t in start.templates
      && (AgreesInVersion(db, t) <==> !(IsBlank(start.templates[t].version) && IsReleased(start, t)))
  {
    forall t | IsReleased(db, t)
      ensures t in start.templates
      ensures AgreesInVersion(db, t) <==> !(IsBlank(start.templates[t].version) && IsReleased(start, t))
    {
      VersionsAgree(start, db, created, clock, round, t);
    }
  }

  /** A published template with a blank version whose snapshot is current. */
  function BlankButReleased(t: Text, v: Text): Db {
    var tmpl := Template([], [], [], [], true, [], []);
    var working := NewSnapshot(Versioned(tmpl), []);
    Db(map[t := tmpl], map[], map[v := Version(t, DEFAULT_VERSION, Some(working), [], 0)], {})
  }

  /** The migration leaves this database as it is, with the blank version. */
  lemma BlankVersionStays(t: Text, v: Text)
    ensures var db := BlankButReleased(t, v);
      Restored(db) && !AgreesInVersion(db, t) && IsBlank(db.templates[t].version)
  {
    var db := BlankButReleased(t, v);
    WorkingIsCurrent(db, t);
    assert IsNewest(db.versions, t, v) && db.versions[v].content == Some(Working(db, t));
    assert IsReleased(db, t);
    OnlyABlankVersionDiffers(db, t);
  }

  /** A published template with an unreadable snapshot of time 0. */
  function StaleAtZero(t: Text, v: Text): Db {
    Db(map[t := Template([], [], [], [], true, DEFAULT_VERSION, [])], map[],
       map[v := Version(t, DEFAULT_VERSION, None, [], 0)], {})
  }

  /** One microsecond later, a new snapshot with a smaller id loses the tie, so
      the template still reads the stale one. */
  lemma TiedSnapshotDoesNotRelease(t: Text, v: Text, id: Text, at: int)
    requires TextLess(id, v) && IsStoredTime(StaleAtZero(t, v), t, 1, ToMillis, at)
    ensures var db := StaleAtZero(t, v);
      && at == 0 && NeedsRelease(db, t) && LosesTheTie(db, t, 1, ToMillis, id)
      && !IsReleased(WithSnapshot(db, t, id, at), t)
  {
    var db := StaleAtZero(t, v);
    TextLessTrichotomy(id, v);
    assert IsNewest(db.versions, t, v);
    StaleIsNotReleased(db, t, v);
    assert ToMillis(1) == 0;
    SnapshotReleases(db, t, id, at);
    assert !Less(KeyOf(db.versions, v), Key(at, id));
  }

  /** The migration skips a template that is not published and not both
      referenced and released before, and one whose newest snapshot holds the
      working copy. */
  ghost predicate IsSkipped(db: Db, t: Text) {
    || t !in db.templates
    || (!db.templates[t].isPublished
        && (t !in db.referenced || forall v :: v in db.versions ==> db.versions[v].templateId != t))
    || IsUpToDate(db, t)
  }

  lemma SkippedMeans(db: Db, t: Text)
    ensures NeedsRelease(db, t) <==> !IsSkipped(db, t)
  {
    ReleasedMeansUpToDate(db, t);
  }

  /** The rows that the migration writes for a template: the new snapshot holds
      the template and all its charts, the row gets the version of the snapshot,
      and nothing else of it changes. */
  ghost predicate IsReleasedRow(start: Db, db: Db, t: Text, id: Text) {
    && t in start.templates && t in db.templates && id in db.versions && id !in start.versions
    && var tmpl, made := start.templates[t], db.versions[id];
       && made.templateId == t && made.createdBy == tmpl.owner && made.content.Some?
       && IsSnapshotOf(made.content.value, tmpl, ChartsOf(start.charts, t))
       && made.version == made.content.value.template.version
       && IsReleaseVersion(db.templates[t].version, tmpl.version)
       && db.templates[t] == tmpl.(version := db.templates[t].version)
  }

  lemma CreatedRowsAreReleases(
    start: Db, db: Db, created: map<Text, Created>, clock: Text -> int, round: int -> int, t: Text)
    requires Progress(start, db, {}, created, clock, round) && t in created
    ensures IsReleasedRow(start, db, t, created[t].id)
  {
    assert IsMigrated(start, db, t, created, clock, round);
    var next := WithSnapshot(start, t, created[t].id, created[t].at);
    WorkingIsSnapshot(start, t);
    assert next.versions[created[t].id].templateId == t;
  }

  lemma OtherRowsStay(
    start: Db, db: Db, created: map<Text, Created>, clock: Text -> int, round: int -> int, t: Text)
    requires Progress(start, db, {}, created, clock, round) && t in start.templates && t !in created
    ensures t in db.templates && db.templates[t] == start.templates[t]
  {
    assert IsMigrated(start, db, t, created, clock, round);
  }

  lemma MigratedRows(start: Db, db: Db, created: map<Text, Created>, clock: Text -> int, round: int -> int)
    requires Progress(start, db, {}, created, clock, round)
    requires forall t :: t in created <==> NeedsRelease(start, t)
    ensures forall t :: t in created <==> !IsSkipped(start, t)
    ensures forall t :: t in created ==> IsReleasedRow(start, db, t, created[t].id)
    ensures forall t :: t in start.templates && t !in created ==>
      t in db.templates && db.templates[t] == start.templates[t]
  {
    forall t ensures NeedsRelease(start, t) <==> !IsSkipped(start, t) { SkippedMeans(start, t); }
    forall t | t in created ensures IsReleasedRow(start, db, t, created[t].id) {
      CreatedRowsAreReleases(start, db, created, clock, round, t);
    }
    forall t | t in start.templates && t !in created
      ensures t in db.templates && db.templates[t] == start.templates[t]
    {
      OtherRowsStay(start, db, created, clock, round, t);
    }
  }

  class TemplateStore {
    var templates: map<Text, Template>
    var versions: map<Text, Version>
    const charts: map<Text, seq<Chart>>
    const referenced: set<Text>

    ghost function View(): Db
      reads this
    {
      Db(templates, charts, versions, referenced)
    }

    constructor (db: Db)
      ensures View() == db
    {
      templates, versions, charts, referenced := db.templates, db.versions, db.charts, db.referenced;
    }

    method FindLatest(t: Text) returns (latest: Option<Text>)
      ensures latest.None? <==> !HasSnapshot(versions, t)
      ensures latest.Some? ==> IsNewest(versions, t, latest.value)
    {
      var has := exists v :: v in versions && versions[v].templateId == t;
      if !has {
        return None;
      }
      NewestExists(versions, t);
      var v :| v in versions && IsNewest(versions, t, v);
      return Some(v);
    }

    /** The two writes of a release: the snapshot, and the version of a template
        that had a blank one. */
    method AddSnapshot(t: Text, id: Text, at: int, tmpl: Template, working: Snapshot, emptyVersion: bool)
      requires t in templates && tmpl == Versioned(templates[t]) && working == Working(View(), t)
      requires emptyVersion <==> IsBlank(templates[t].version)
      modifies this
      ensures View() == WithSnapshot(old(View()), t, id, at)
    {
      versions := versions[id := Version(t, tmpl.version, Some(working), tmpl.owner, at)];
      if emptyVersion {
        templates := templates[t := templates[t].(version := tmpl.version)];
      }
      assert templates == old(templates)[t := Versioned(old(templates)[t])];
    }

    /** The body of the loop for template t at clock reading now. */
    method ReleaseOne(t: Text, now: int, round: int -> int, id: Text) returns (created: bool, at: int)
      requires t in templates && id !in versions
      modifies this
      ensures created <==> NeedsRelease(old(View()), t)
      ensures created <==> !IsSkipped(old(View()), t)
      ensures created ==> IsReleasedRow(old(View()), View(), t, id)
      ensures !created ==> View() == old(View())
      ensures created ==>
        && IsStoredTime(old(View()), t, now, round, at)
        && View() == WithSnapshot(old(View()), t, id, at)
        && (IsReleased(View(), t) <==> IsAbove(old(versions), t, at, id))
    {
      SkippedMeans(View(), t);
      WorkingIsSnapshot(View(), t);
      at := now;
      var tmpl := templates[t];
      if !tmpl.isPublished && t !in referenced {
        return false, at;
      }
      var latest := FindLatest(t);
      if latest.None? && !tmpl.isPublished {
        return false, at;
      }
      var emptyVersion := IsBlank(tmpl.version);
      if emptyVersion {
        tmpl := tmpl.(version := DEFAULT_VERSION);
      }
      var working := NewSnapshot(tmpl, ChartsOf(charts, t));
      assert working == Working(View(), t);
      if latest.Some? {
        if IsCurrent(versions[latest.value].content, working) {
          CurrentIsReleased(View(), t, latest.value);
          return false, at;
        }
        if now <= versions[latest.value].createdAt {
          at := versions[latest.value].createdAt + MILLI;
        }
      }
      at := round(at);
      NewIsNeeded(View(), t, latest);
      StoredTimeOf(View(), t, now, round, latest, at);
      SnapshotReleases(View(), t, id, at);
      AddSnapshot(t, id, at, tmpl, working, emptyVersion);
      return true, at;
    }

    /** releaseTemplateWorkingCopies. clock(t) is the clock reading for template
        t, round the column, and uuids are the random ids of this and later
        runs, next the first unused one. The run adds one snapshot for each
        template that needs it, and restores all exactly when no new snapshot
        loses a tie; a run on a restored database changes nothing. */
    method ReleaseTemplateWorkingCopies(clock: Text -> int, round: int -> int, uuids: nat -> Text, from: nat)
      returns (created: map<Text, Created>, next: nat)
      requires IsRounding(round) && InColumn(View(), round)
      requires forall i, j :: from <= i < j ==> uuids(i) != uuids(j)
      requires forall i :: from <= i ==> uuids(i) !in versions
      modifies this
      ensures Progress(old(View()), View(), {}, created, clock, round)
      ensures forall t :: t in created <==> NeedsRelease(old(View()), t)
      ensures forall t :: t in created <==> !IsSkipped(old(View()), t)
      ensures forall t :: t in created ==> IsReleasedRow(old(View()), View(), t, created[t].id)
      ensures forall t :: t in old(templates) && t !in created ==> t in templates && templates[t] == old(templates)[t]
      ensures Restored(View()) <==>
        forall t :: t in created ==> !LosesTheTie(old(View()), t, clock(t), round, created[t].id)
      ensures KeepsHistory(old(View()), View()) && InColumn(View(), round)
      ensures Restored(old(View())) ==> View() == old(View())
      ensures forall t :: IsReleased(View(), t) ==>
        && t in old(templates)
        && (AgreesInVersion(View(), t) <==> !(IsBlank(old(templates)[t].version) && IsReleased(old(View()), t)))
      ensures next >= from && forall i :: next <= i ==> uuids(i) !in versions
    {
      ghost var start := View();
      created, next := ReleaseAll(clock, round, uuids, from);
      CreatedAreNeeded(start, View(), created, clock, round);
      RestoredUnlessTied(start, View(), created, clock, round);
      MigratedRows(start, View(), created, clock, round);
      AllVersionsAgree(start, View(), created, clock, round);
    }

    /** The loop over the templates. */
    method ReleaseAll(clock: Text -> int, round: int -> int, uuids: nat -> Text, from: nat)
      returns (created: map<Text, Created>, next: nat)
      requires IsRounding(round) && InColumn(View(), round)
      requires forall i, j :: from <= i < j ==> uuids(i) != uuids(j)
      requires forall i :: from <= i ==> uuids(i) !in versions
      modifies this
      ensures Progress(old(View()), View(), {}, created, clock, round) && InColumn(View(), round)
      ensures next >= from && forall i :: next <= i ==> uuids(i) !in versions
    {
      next, created := from, map[];
      ghost var start := View();
      var todo := templates.Keys;
      while todo != {}
        invariant todo <= templates.Keys
        invariant Progress(start, View(), todo, created, clock, round) && InColumn(View(), round)
        invariant next >= from && forall i :: next <= i ==> uuids(i) !in versions
        decreases |todo|
      {
        var t :| t in todo;
        ghost var db := View();
        var made, at := ReleaseOne(t, clock(t), round, uuids(next));
        if made {
          ReleaseAdvances(start, db, todo, created, clock, round, t, uuids(next), at);
          ColumnStays(db, t, clock(t), round, uuids(next), at);
          created := created[t := Created(uuids(next), at)];
          next := next + 1;
        } else {
          SkipAdvances(start, db, todo, created, clock, round, t);
        }
        todo := todo - {t};
      }
    }
  }
}
